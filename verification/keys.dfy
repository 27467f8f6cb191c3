/** Keys are Java strings, ordered by `String.compareTo`: the strings are
    compared as sequences of UTF-16 code units, the first differing unit
    deciding and otherwise the shorter string coming first. A character
    above U+FFFF is two units, a surrogate pair, so it sorts below the
    characters from U+E000 to U+FFFF. */
module Keys {

  type Key = string

  /** The UTF-16 code units of one character. */
  function CharUnits(c: char): (r: seq<int>)
    ensures |r| == 1 || |r| == 2
    ensures 0xD800 <= r[0] < 0xDC00 <==> |r| == 2
  {
    var v := c as int;
    if v < 0x1_0000 then [v]
    else [0xD800 + (v - 0x1_0000) / 1024, 0xDC00 + (v - 0x1_0000) % 1024]
  }

  /** The UTF-16 code units of a string, as a Java `String` holds them. */
  function Units(s: string): (r: seq<int>)
    ensures |r| >= |s|
    ensures |s| == 0 <==> |r| == 0
  {
    if |s| == 0 then [] else CharUnits(s[0]) + Units(s[1..])
  }

  /** Lexicographic order on code-unit sequences. */
  predicate UnitsLt(a: seq<int>, b: seq<int>)
    decreases |a|
  {
    if |a| == 0 then |b| > 0
    else if |b| == 0 then false
    else if a[0] != b[0] then a[0] < b[0]
    else UnitsLt(a[1..], b[1..])
  }

  /** Where a character's code units place it among all characters: the
      characters from U+E000 to U+FFFF come after every surrogate pair. */
  function UnitRank(c: char): (r: int)
    ensures r == c as int || 0x11_0000 <= r
  {
    var v := c as int;
    if 0xE000 <= v < 0x1_0000 then v + 0x11_0000 else v
  }

  /** `a.compareTo(b) < 0`, one character at a time: equal characters have
      equal units, and the first differing character decides by its rank. */
  predicate Lt(a: Key, b: Key)
    decreases |a|
  {
    if |a| == 0 then |b| > 0
    else if |b| == 0 then false
    else if a[0] != b[0] then UnitRank(a[0]) < UnitRank(b[0])
    else Lt(a[1..], b[1..])
  }

  /** `a.compareTo(b) <= 0`. */
  predicate Le(a: Key, b: Key)
  {
    !Lt(b, a)
  }

  /** Comparing strings by character rank is comparing their UTF-16 units. */
  lemma {:induction false} LtIsUnitOrder(a: Key, b: Key)
    ensures Lt(a, b) <==> UnitsLt(Units(a), Units(b))
    decreases |a|
  {
    if |a| > 0 && |b| > 0 {
      if a[0] == b[0] {
        LtIsUnitOrder(a[1..], b[1..]);
        CommonPrefix(CharUnits(a[0]), Units(a[1..]), Units(b[1..]));
      } else {
        FirstCharDecides(a[0], b[0], Units(a[1..]), Units(b[1..]));
      }
    }
  }

  lemma {:induction false} CommonPrefix(p: seq<int>, x: seq<int>, y: seq<int>)
    ensures UnitsLt(p + x, p + y) <==> UnitsLt(x, y)
    decreases |p|
  {
    if |p| > 0 {
      assert (p + x)[0] == p[0] == (p + y)[0];
      assert (p + x)[1..] == p[1..] + x && (p + y)[1..] == p[1..] + y;
      CommonPrefix(p[1..], x, y);
    } else {
      assert p + x == x && p + y == y;
    }
  }

  /** Two different characters differ in their units before either runs
      out, and the first differing unit agrees with their ranks. */
  lemma FirstCharDecides(c: char, d: char, x: seq<int>, y: seq<int>)
    requires c != d
    ensures UnitsLt(CharUnits(c) + x, CharUnits(d) + y) <==> UnitRank(c) < UnitRank(d)
  {
    var u, w := CharUnits(c), CharUnits(d);
    assert (u + x)[0] == u[0] && (w + y)[0] == w[0];
    if u[0] == w[0] {
      assert |u| == 2 && |w| == 2;
      assert (u + x)[1..][0] == u[1] && (w + y)[1..][0] == w[1];
      assert u[1] != w[1];
    }
  }

  lemma {:induction false} LtIrreflexive(a: Key)
    ensures !Lt(a, a)
    decreases |a|
  {
    if |a| > 0 {
      LtIrreflexive(a[1..]);
    }
  }

  lemma {:induction false} LtTransitive(a: Key, b: Key, c: Key)
    requires Lt(a, b) && Lt(b, c)
    ensures Lt(a, c)
    decreases |a|
  {
    if |a| > 0 && |b| > 0 && |c| > 0 && a[0] == b[0] && b[0] == c[0] {
      LtTransitive(a[1..], b[1..], c[1..]);
    }
  }

  lemma {:induction false} LtTotal(a: Key, b: Key)
    ensures a == b || Lt(a, b) || Lt(b, a)
    decreases |a|
  {
    if |a| > 0 && |b| > 0 && a[0] == b[0] {
      LtTotal(a[1..], b[1..]);
      if a[1..] == b[1..] {
        assert a == [a[0]] + a[1..] && b == [b[0]] + b[1..];
      }
    }
  }

  /** Unlike code-point order, U+10000 (units D800 DC00) comes before U+E000. */
  lemma SupplementaryBeforeHighBmp()
    ensures Lt("\U{10000}", "\U{E000}") && !Lt("\U{E000}", "\U{10000}")
    ensures UnitsLt(Units("\U{10000}"), Units("\U{E000}"))
  {
    assert Units("\U{10000}") == [0xD800, 0xDC00];
    assert Units("\U{E000}") == [0xE000];
  }

  lemma LtAsymmetric(a: Key, b: Key)
    requires Lt(a, b)
    ensures !Lt(b, a)
  {
    if Lt(b, a) {
      LtTransitive(a, b, a);
      LtIrreflexive(a);
    }
  }

  /** `<=` is the reflexive closure of `<`. */
  lemma LeIff(a: Key, b: Key)
    ensures Le(a, b) <==> a == b || Lt(a, b)
  {
    LtTotal(a, b);
    LtIrreflexive(a);
    if Lt(a, b) {
      LtAsymmetric(a, b);
    }
  }

  lemma LeTransitive(a: Key, b: Key, c: Key)
    requires Le(a, b) && Le(b, c)
    ensures Le(a, c)
  {
    LeIff(a, b);
    LeIff(b, c);
    LeIff(a, c);
    if Lt(a, b) && Lt(b, c) {
      LtTransitive(a, b, c);
    }
  }

  lemma LtLeTransitive(a: Key, b: Key, c: Key)
    requires Lt(a, b) && Le(b, c)
    ensures Lt(a, c)
  {
    LeIff(b, c);
    if b != c {
      LtTransitive(a, b, c);
    }
  }

  lemma LeLtTransitive(a: Key, b: Key, c: Key)
    requires Le(a, b) && Lt(b, c)
    ensures Lt(a, c)
  {
    LeIff(a, b);
    if a != b {
      LtTransitive(a, b, c);
    }
  }
}
