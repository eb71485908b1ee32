/** The string operations the whitespace codec relies on: Python's
    `str.split`, `str.join` and `''.join`. */
module Text {

  /** `s.split(sep)`: the pieces of `s` between the leftmost non-overlapping
      occurrences of `sep`; always at least one piece. */
  function Split(s: string, sep: string): (r: seq<string>)
    requires |sep| > 0
    ensures |r| >= 1
    decreases |s|
  {
    if |s| < |sep| then [s]
    else if s[..|sep|] == sep then [""] + Split(s[|sep|..], sep)
    else
      var rest := Split(s[1..], sep);
      [[s[0]] + rest[0]] + rest[1..]
  }

  /** `sep.join(pieces)` */
  function Join(pieces: seq<string>, sep: string): string
  {
    if |pieces| == 0 then ""
    else if |pieces| == 1 then pieces[0]
    else pieces[0] + sep + Join(pieces[1..], sep)
  }

  /** `''.join(pieces)` */
  function Concat(pieces: seq<string>): string
  {
    if |pieces| == 0 then "" else pieces[0] + Concat(pieces[1..])
  }

  /** The character `c` occurs nowhere in `s`. */
  predicate Avoids(s: string, c: char)
  {
    forall k :: 0 <= k < |s| ==> s[k] != c
  }

  /** Joining the pieces of a split with the same separator gives the string back. */
  lemma {:induction false} JoinSplit(s: string, sep: string)
    requires |sep| > 0
    ensures Join(Split(s, sep), sep) == s
    decreases |s|
  {
    if |s| < |sep| {
    } else if s[..|sep|] == sep {
      JoinSplit(s[|sep|..], sep);
      JoinEmptyHead(Split(s[|sep|..], sep), sep);
      assert s == sep + s[|sep|..];
    } else {
      JoinSplit(s[1..], sep);
      JoinConsHead(s[0], Split(s[1..], sep), sep);
      assert s == [s[0]] + s[1..];
    }
  }

  /** An empty first piece leaves the separator at the front of the join. */
  lemma {:induction false} JoinEmptyHead(rest: seq<string>, sep: string)
    requires |rest| >= 1
    ensures Join([""] + rest, sep) == sep + Join(rest, sep)
  {
    assert ([""] + rest)[1..] == rest;
  }

  /** A character put in front of the first piece is put in front of the join. */
  lemma {:induction false} JoinConsHead(c: char, rest: seq<string>, sep: string)
    requires |rest| >= 1
    ensures Join([[c] + rest[0]] + rest[1..], sep) == [c] + Join(rest, sep)
  {
    var r := [[c] + rest[0]] + rest[1..];
    if |rest| > 1 {
      assert r[1..] == rest[1..];
      assert ([c] + rest[0]) + sep + Join(rest[1..], sep) == [c] + (rest[0] + sep + Join(rest[1..], sep));
    }
  }

  /** A piece that cannot start an occurrence of the separator is split off whole. */
  lemma {:induction false} SplitAfter(a: string, b: string, sep: string)
    requires |sep| > 0 && Avoids(a, sep[0])
    ensures Split(a + sep + b, sep) == [a] + Split(b, sep)
    decreases |a|
  {
    var s := a + sep + b;
    if |a| == 0 {
      assert s[..|sep|] == sep;
      assert s[|sep|..] == b;
    } else {
      assert s[0] != sep[0];
      assert s[..|sep|] != sep;
      assert s[1..] == a[1..] + sep + b;
      SplitAfter(a[1..], b, sep);
      assert [s[0]] + a[1..] == a;
    }
  }

  /** A string that cannot start an occurrence of the separator is one piece. */
  lemma {:induction false} SplitWhole(s: string, sep: string)
    requires |sep| > 0 && Avoids(s, sep[0])
    ensures Split(s, sep) == [s]
    decreases |s|
  {
    if |s| >= |sep| {
      assert s[0] != sep[0];
      assert s[..|sep|] != sep;
      SplitWhole(s[1..], sep);
      assert [s[0]] + s[1..] == s;
    }
  }

  /** Lines joined by the separator, with one more separator at the end, split
      back into the lines followed by one empty piece. */
  lemma {:induction false} SplitJoined(lines: seq<string>, sep: string)
    requires |sep| > 0 && |lines| >= 1
    requires forall k :: 0 <= k < |lines| ==> Avoids(lines[k], sep[0])
    ensures Split(Join(lines, sep) + sep, sep) == lines + [""]
  {
    if |lines| == 1 {
      SplitAfter(lines[0], "", sep);
      assert lines[0] + sep == lines[0] + sep + "";
    } else {
      SplitJoined(lines[1..], sep);
      SplitAfter(lines[0], Join(lines[1..], sep) + sep, sep);
      assert Join(lines, sep) + sep == lines[0] + sep + (Join(lines[1..], sep) + sep);
      assert lines == [lines[0]] + lines[1..];
    }
  }
}
