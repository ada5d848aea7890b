/** Byte strings, the separator join the hook builds its tags with, and the
    split that undoes it. Go strings are byte strings, so command names,
    argument renderings and error messages are all `Bytes` here. */
module Bytes {

  newtype byte = x: int | 0 <= x < 256

  type Bytes = seq<byte>

  /** The model only spells out ASCII literals, one byte per character. */
  predicate IsAscii(s: string) {
    forall i :: 0 <= i < |s| ==> s[i] as int < 128
  }

  /** The bytes of a literal such as "pipeline " (one byte per character). */
  function Str(s: string): Bytes
    requires IsAscii(s)
  {
    seq(|s|, i requires 0 <= i < |s| => s[i] as int as byte)
  }

  /** `parts` with one `sep` between neighbours and none at either end,
      as Go's `strings.Join` and the hook's separator-before-all-but-the-first
      loops produce: nothing for no pieces, otherwise the first piece, then a
      separator when there is a second. */
  function Join(parts: seq<Bytes>, sep: byte): (r: Bytes)
    ensures parts == [] ==> r == []
    ensures |parts| == 1 ==> r == parts[0]
    ensures |parts| >= 2 ==> |r| > |parts[0]| && r[|parts[0]|] == sep
  {
    if |parts| == 0 then []
    else if |parts| == 1 then parts[0]
    else parts[0] + [sep] + Join(parts[1..], sep)
  }

  /** The join begins with the first piece. This is a lemma rather than an
      ensures of `Join`: as a clause of `Join` it would hold for every `Join`
      term in every proof and slow them all down. */
  lemma JoinPrefix(parts: seq<Bytes>, sep: byte)
    requires |parts| >= 1
    ensures parts[0] <= Join(parts, sep)
  {
  }

  /** The pieces of `s` between occurrences of `sep`; always at least one. */
  function Split(s: Bytes, sep: byte): (r: seq<Bytes>)
    ensures |r| >= 1
  {
    if |s| == 0 then [[]]
    else
      var rest := Split(s[1..], sep);
      if s[0] == sep then [[]] + rest
      else [[s[0]] + rest[0]] + rest[1..]
  }

  /** Joining grows at the end the way the hook's loops append. */
  lemma {:induction false} JoinSnoc(parts: seq<Bytes>, p: Bytes, sep: byte)
    ensures Join(parts + [p], sep) == if parts == [] then p else Join(parts, sep) + [sep] + p
  {
    if |parts| == 1 {
      assert (parts + [p])[1..] == [p];
    } else if |parts| > 1 {
      assert (parts + [p])[1..] == parts[1..] + [p];
      JoinSnoc(parts[1..], p, sep);
    }
  }

  /** One turn of a separator-before-all-but-the-first loop appending to a
      buffer `b`: a separator unless no piece was written yet, then the piece. */
  lemma JoinStep(b: Bytes, parts: seq<Bytes>, p: Bytes, sep: byte, r: Bytes)
    requires r == (if parts != [] then b + Join(parts, sep) + [sep] else b + Join(parts, sep)) + p
    ensures r == b + Join(parts + [p], sep)
  {
    JoinSnoc(parts, p, sep);
  }

  /** Splitting then joining gives back any byte string. */
  lemma {:induction false} JoinSplit(s: Bytes, sep: byte)
    ensures Join(Split(s, sep), sep) == s
  {
    if |s| > 0 {
      var rest := Split(s[1..], sep);
      JoinSplit(s[1..], sep);
      if s[0] == sep {
        assert ([[]] + rest)[1..] == rest;
      } else if |rest| > 1 {
        var r := [[s[0]] + rest[0]] + rest[1..];
        assert r[1..] == rest[1..];
      }
    }
  }

  lemma {:induction false} SplitNoSep(p: Bytes, sep: byte)
    requires sep !in p
    ensures Split(p, sep) == [p]
  {
    if |p| > 0 {
      assert forall x :: x in p[1..] ==> x in p;
      SplitNoSep(p[1..], sep);
      assert p == [p[0]] + p[1..];
    }
  }

  lemma {:induction false} SplitAfter(p: Bytes, t: Bytes, sep: byte)
    requires sep !in p
    ensures Split(p + [sep] + t, sep) == [p] + Split(t, sep)
  {
    if |p| == 0 {
      assert p + [sep] + t == [sep] + t;
      assert ([sep] + t)[1..] == t;
    } else {
      assert (p + [sep] + t)[1..] == p[1..] + [sep] + t;
      assert forall x :: x in p[1..] ==> x in p;
      SplitAfter(p[1..], t, sep);
      assert p == [p[0]] + p[1..];
    }
  }

  /** Joining pieces free of the separator, then splitting, gives back the pieces. */
  lemma {:induction false} SplitJoin(parts: seq<Bytes>, sep: byte)
    requires |parts| >= 1
    requires forall k :: 0 <= k < |parts| ==> sep !in parts[k]
    ensures Split(Join(parts, sep), sep) == parts
  {
    if |parts| == 1 {
      SplitNoSep(parts[0], sep);
    } else {
      SplitJoin(parts[1..], sep);
      SplitAfter(parts[0], Join(parts[1..], sep), sep);
    }
  }

  /** Pieces of at most `m` bytes join to at most `m + 1` bytes per piece. */
  lemma {:induction false} JoinBound(parts: seq<Bytes>, sep: byte, m: nat)
    requires forall k :: 0 <= k < |parts| ==> |parts[k]| <= m
    ensures |Join(parts, sep)| <= (m + 1) * |parts|
  {
    if |parts| > 1 {
      JoinBound(parts[1..], sep, m);
      assert (m + 1) * |parts| == (m + 1) + (m + 1) * |parts[1..]|;
    }
  }
}
