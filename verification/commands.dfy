/** The write operations that flow from the API through the write-ahead log
    and the memtable into the sorted tables. */
module Commands {
  import opened Keys

  /** `SetCommand` and `RmCommand`; a `Remove` is a tombstone. */
  datatype Command = Set(key: Key, value: string) | Remove(key: Key)
}
