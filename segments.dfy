/** The string handling behind `append_or_extend`: Python's `str.strip('/')`,
    `str.split('/')` and `'/'.join(...)`, on strings as sequences of characters. */
module Segments {

  const Separator: char := '/'

  /** `s.lstrip('/')`: every leading separator removed. */
  function LStrip(s: string): (r: string)
    ensures |r| <= |s| && r == s[|s| - |r|..]
    ensures forall k :: 0 <= k < |s| - |r| ==> s[k] == Separator
    ensures r == [] || r[0] != Separator
    decreases |s|
  {
    if s != [] && s[0] == Separator then LStrip(s[1..]) else s
  }

  /** `s.rstrip('/')`: every trailing separator removed. */
  function RStrip(s: string): (r: string)
    ensures |r| <= |s| && r == s[..|r|]
    ensures forall k :: |r| <= k < |s| ==> s[k] == Separator
    ensures r == [] || r[|r| - 1] != Separator
    decreases |s|
  {
    if s != [] && s[|s| - 1] == Separator then RStrip(s[..|s| - 1]) else s
  }

  /** `s.strip('/')`. */
  function Strip(s: string): (r: string)
    ensures r == [] || (r[0] != Separator && r[|r| - 1] != Separator)
  {
    RStrip(LStrip(s))
  }

  /** `s.split('/')`: the pieces between separators, empty pieces kept. */
  function Split(s: string): (r: seq<string>)
    ensures |r| >= 1
    ensures forall k :: 0 <= k < |r| ==> Separator !in r[k]
    decreases |s|
  {
    if s == [] then [""]
    else if s[0] == Separator then [""] + Split(s[1..])
    else
      var rest := Split(s[1..]);
      [[s[0]] + rest[0]] + rest[1..]
  }

  /** `'/'.join(parts)`. */
  function Join(parts: seq<string>): string
    decreases |parts|
  {
    if parts == [] then ""
    else if |parts| == 1 then parts[0]
    else parts[0] + [Separator] + Join(parts[1..])
  }

  /** The segments a string contributes to a path (line 72 of the source). */
  function SegmentsOf(s: string): (r: seq<string>)
    ensures |r| >= 1
  {
    Split(Strip(s))
  }

  /** Stripping is idempotent: a stripped string has no separator to lose. */
  lemma StripIdempotent(s: string)
    ensures Strip(Strip(s)) == Strip(s)
  {
  }

  /** Joining the pieces of a split gives back the string. */
  lemma {:induction false} JoinSplit(s: string)
    ensures Join(Split(s)) == s
    decreases |s|
  {
    if s == [] {
    } else if s[0] == Separator {
      JoinSplit(s[1..]);
      assert s == [Separator] + s[1..];
    } else {
      var rest := Split(s[1..]);
      JoinSplit(s[1..]);
      if |rest| == 1 {
        assert Split(s) == [[s[0]] + rest[0]];
      } else {
        assert Split(s)[1..] == rest[1..];
        assert Join(rest) == rest[0] + [Separator] + Join(rest[1..]);
      }
      assert s == [s[0]] + s[1..];
    }
  }

  /** Splitting a join of separator-free pieces gives back the pieces. */
  lemma {:induction false} SplitJoin(parts: seq<string>)
    requires |parts| >= 1
    requires forall k :: 0 <= k < |parts| ==> Separator !in parts[k]
    ensures Split(Join(parts)) == parts
    decreases |parts|
  {
    if |parts| == 1 {
      SplitPiece(parts[0]);
    } else {
      SplitJoin(parts[1..]);
      SplitConcat(parts[0], Join(parts[1..]));
      SplitPiece(parts[0]);
      assert [parts[0]] + parts[1..] == parts;
    }
  }

  /** A string without separators splits into itself. */
  lemma {:induction false} SplitPiece(s: string)
    requires Separator !in s
    ensures Split(s) == [s]
    decreases |s|
  {
    if s != [] {
      SplitPiece(s[1..]);
      assert [s[0]] + s[1..] == s;
    }
  }

  /** Splitting `a + "/" + b` splits `a` and `b` separately. */
  lemma {:induction false} SplitConcat(a: string, b: string)
    ensures Split(a + [Separator] + b) == Split(a) + Split(b)
    decreases |a|
  {
    var s := a + [Separator] + b;
    if a == [] {
      assert s == [Separator] + b;
      assert s[1..] == b;
    } else {
      assert s[0] == a[0];
      assert s[1..] == a[1..] + [Separator] + b;
      SplitConcat(a[1..], b);
      if a[0] != Separator {
        var rest := Split(a[1..]);
        assert Split(s[1..]) == rest + Split(b);
        assert (rest + Split(b))[0] == rest[0];
        assert (rest + Split(b))[1..] == rest[1..] + Split(b);
      }
    }
  }

  /** Line 72 of the source: the string rendered by joining its segments is the
      string stripped of leading and trailing separators. */
  lemma JoinSegmentsOf(s: string)
    ensures Join(SegmentsOf(s)) == Strip(s)
  {
    JoinSplit(Strip(s));
  }

  /** A string that is empty once stripped contributes exactly one empty segment. */
  lemma SegmentsOfBlank(s: string)
    requires forall k :: 0 <= k < |s| ==> s[k] == Separator
    ensures SegmentsOf(s) == [""]
  {
  }

  /** A non-empty string with no separator at either end, which stripping leaves as it is. */
  predicate Bare(s: string) {
    s != [] && s[0] != Separator && s[|s| - 1] != Separator
  }

  /** A bare string is its own strip. */
  lemma StripBare(s: string)
    requires Bare(s)
    ensures Strip(s) == s
  {
    assert LStrip(s) == s;
  }

  /** Two bare strings contribute, one after the other, the same segments as the
      single string that joins them with a separator. */
  lemma SegmentsOfConcat(a: string, b: string)
    requires Bare(a) && Bare(b)
    ensures SegmentsOf(a + [Separator] + b) == SegmentsOf(a) + SegmentsOf(b)
  {
    var s := a + [Separator] + b;
    assert s[0] == a[0] && s[|s| - 1] == b[|b| - 1];
    StripBare(a);
    StripBare(b);
    StripBare(s);
    SplitConcat(a, b);
  }
}
