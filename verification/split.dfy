/**
 * Splitting a string on a one-character separator, as Rust's `str::split`
 * does it: every occurrence of the separator ends a piece, so a string with
 * n separators always yields n + 1 pieces, some of which may be empty
 * (the empty string yields one empty piece).
 */
module Splitting {

  /** The pieces of `s` between occurrences of `sep`, in order. */
  function Split(s: string, sep: char): (pieces: seq<string>)
    ensures |pieces| >= 1
    ensures forall i :: 0 <= i < |pieces| ==> sep !in pieces[i]
  {
    if s == [] then [[]]
    else
      var rest := Split(s[1..], sep);
      if s[0] == sep then [[]] + rest
      else [[s[0]] + rest[0]] + rest[1..]
  }

  /** Puts the pieces back together with `sep` between consecutive ones. */
  function Join(pieces: seq<string>, sep: char): string
  {
    if |pieces| == 0 then []
    else if |pieces| == 1 then pieces[0]
    else pieces[0] + [sep] + Join(pieces[1..], sep)
  }

  /**
   * `f` sits in `t` at offset `i` as one whole field: it holds no separator
   * and is followed by a separator or by the end of `t`.
   */
  ghost predicate IsField(t: string, i: nat, f: string, sep: char)
  {
    && sep !in f
    && i + |f| <= |t|
    && t[i..i + |f|] == f
    && (i + |f| == |t| || t[i + |f|] == sep)
  }

  /** A field starting at a given offset is unique. */
  lemma FieldUnique(t: string, i: nat, a: string, b: string, sep: char)
    requires IsField(t, i, a, sep) && IsField(t, i, b, sep)
    ensures a == b
  {
  }

  /** A field at the start of a suffix of `t` is a field of `t` at that offset. */
  lemma FieldOfSuffix(t: string, i: nat, f: string, sep: char)
    requires i <= |t| && IsField(t[i..], 0, f, sep)
    ensures IsField(t, i, f, sep)
  {
    assert t[i..][0..|f|] == t[i..i + |f|];
    assert i + |f| < |t| ==> t[i..][|f|] == t[i + |f|];
  }

  /**
   * The first piece is the text before the first separator (or all of `s`
   * when there is none), and the remaining pieces are the split of what
   * follows that separator.
   */
  lemma {:induction false} SplitHead(s: string, sep: char)
    ensures IsField(s, 0, Split(s, sep)[0], sep)
    ensures |Split(s, sep)[0]| < |s| <==> sep in s
    ensures |Split(s, sep)[0]| == |s| ==> Split(s, sep) == [s]
    ensures |Split(s, sep)[0]| < |s| ==>
              Split(s, sep)[1..] == Split(s[|Split(s, sep)[0]| + 1..], sep)
    decreases |s|
  {
    var pieces := Split(s, sep);
    if s == [] {
    } else if s[0] == sep {
      assert pieces == [[]] + Split(s[1..], sep);
      assert s[1..][0..] == s[1..];
    } else {
      var tail := s[1..];
      var rest := Split(tail, sep);
      SplitHead(tail, sep);
      var m := |rest[0]|;
      assert pieces == [[s[0]] + rest[0]] + rest[1..];
      assert pieces[0] == [s[0]] + rest[0];
      assert s[0..1 + m] == [s[0]] + tail[0..m];
      assert s == [s[0]] + tail;
      if m < |tail| {
        assert tail[m] == sep;
        assert s[1 + m] == sep;
        assert tail[m + 1..] == s[1 + m + 1..];
      } else {
        assert rest == [tail];
        assert sep !in s;
      }
    }
  }

  /** A string with n separators splits into exactly n + 1 pieces. */
  lemma {:induction false} SplitCount(s: string, sep: char)
    ensures |Split(s, sep)| == multiset(s)[sep] + 1
    decreases |s|
  {
    if s != [] {
      SplitCount(s[1..], sep);
      assert s == [s[0]] + s[1..];
      assert multiset(s) == multiset{s[0]} + multiset(s[1..]);
    }
  }

  /** Splitting loses nothing: joining the pieces gives back the string. */
  lemma {:induction false} JoinSplit(s: string, sep: char)
    ensures Join(Split(s, sep), sep) == s
    decreases |s|
  {
    var pieces := Split(s, sep);
    SplitHead(s, sep);
    var n := |pieces[0]|;
    if n < |s| {
      var after := s[n + 1..];
      JoinSplit(after, sep);
      assert pieces == [pieces[0]] + pieces[1..];
      assert |pieces| >= 2;
      assert Join(pieces, sep) == pieces[0] + [sep] + Join(pieces[1..], sep);
      assert s == s[..n] + [sep] + after;
    }
  }

  /**
   * Joining separator-free pieces and splitting again gives back the same
   * pieces.
   */
  lemma {:induction false} SplitJoin(pieces: seq<string>, sep: char)
    requires |pieces| >= 1
    requires forall i :: 0 <= i < |pieces| ==> sep !in pieces[i]
    ensures Split(Join(pieces, sep), sep) == pieces
    decreases |pieces|
  {
    var s := Join(pieces, sep);
    var p0 := pieces[0];
    SplitHead(s, sep);
    var first := Split(s, sep)[0];
    if |pieces| == 1 {
      assert IsField(s, 0, p0, sep);
      FieldUnique(s, 0, first, p0, sep);
    } else {
      var rest := pieces[1..];
      assert s == p0 + [sep] + Join(rest, sep);
      assert s[..|p0|] == p0;
      assert IsField(s, 0, p0, sep);
      FieldUnique(s, 0, first, p0, sep);
      assert s[|p0| + 1..] == Join(rest, sep);
      SplitJoin(rest, sep);
      assert Split(s, sep) == [p0] + rest;
    }
  }
}
