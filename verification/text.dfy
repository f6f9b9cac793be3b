/** JavaScript's `String.prototype.split` with a one-character separator,
    and its inverse `Array.prototype.join`. */
module Text {
  import opened Outcomes

  /** `s.indexOf(c)`, with None for -1. */
  function IndexOf(s: string, c: char): (r: Option<nat>)
    ensures r.Some? ==> r.value < |s| && s[r.value] == c && c !in s[..r.value]
    ensures r.None? <==> c !in s
  {
    if s == [] then None
    else if s[0] == c then Some(0)
    else match IndexOf(s[1..], c)
      case None => None
      case Some(k) =>
        assert s[..k + 1] == [s[0]] + s[1..][..k];
        Some(k + 1)
  }

  /** `s.split(sep)`: the maximal runs between separators, empty runs kept. */
  function Split(s: string, sep: char): (r: seq<string>)
    ensures |r| >= 1
    ensures forall i :: 0 <= i < |r| ==> sep !in r[i]
    decreases |s|
  {
    match IndexOf(s, sep)
    case None => [s]
    case Some(k) => [s[..k]] + Split(s[k + 1..], sep)
  }

  /** `parts.join(sep)`. */
  function Join(parts: seq<string>, sep: char): string
    requires |parts| >= 1
  {
    if |parts| == 1 then parts[0] else parts[0] + [sep] + Join(parts[1..], sep)
  }

  /** How many times `c` occurs in `s`. */
  function Count(s: string, c: char): nat {
    if s == [] then 0 else (if s[0] == c then 1 else 0) + Count(s[1..], c)
  }

  /** Joining the pieces of a split gives back the original string. */
  lemma {:induction false} JoinSplit(s: string, sep: char)
    ensures Join(Split(s, sep), sep) == s
    decreases |s|
  {
    match IndexOf(s, sep)
    case None =>
    case Some(k) =>
      var tail := Split(s[k + 1..], sep);
      assert Split(s, sep) == [s[..k]] + tail;
      JoinSplit(s[k + 1..], sep);
      JoinCons(s[..k], tail, sep);
      assert s == s[..k] + [sep] + s[k + 1..];
  }

  lemma JoinCons(p: string, tail: seq<string>, sep: char)
    requires |tail| >= 1
    ensures Join([p] + tail, sep) == p + [sep] + Join(tail, sep)
  {
    assert ([p] + tail)[1..] == tail;
  }

  /** Splitting a join of separator-free pieces gives back the pieces. */
  lemma {:induction false} SplitJoin(parts: seq<string>, sep: char)
    requires |parts| >= 1
    requires forall i :: 0 <= i < |parts| ==> sep !in parts[i]
    ensures Split(Join(parts, sep), sep) == parts
  {
    if |parts| == 1 {
      assert IndexOf(parts[0], sep).None?;
    } else {
      var tail := parts[1..];
      assert forall i :: 0 <= i < |tail| ==> tail[i] == parts[i + 1];
      SplitJoin(tail, sep);
      SplitAfterFirst(parts[0], Join(tail, sep), sep);
      assert parts == [parts[0]] + tail;
    }
  }

  /** Splitting `p + [sep] + rest` yields `p` and then the pieces of `rest`. */
  lemma SplitAfterFirst(p: string, rest: string, sep: char)
    requires sep !in p
    ensures Split(p + [sep] + rest, sep) == [p] + Split(rest, sep)
  {
    var s := p + [sep] + rest;
    FirstSeparator(p, rest, sep);
    assert s[..|p|] == p;
    assert s[|p| + 1..] == rest;
  }

  /** The first separator of `p + [sep] + rest` sits just after `p`. */
  lemma {:induction false} FirstSeparator(p: string, rest: string, sep: char)
    requires sep !in p
    ensures IndexOf(p + [sep] + rest, sep) == Some(|p|)
  {
    var s := p + [sep] + rest;
    if p == [] {
    } else {
      assert s[1..] == p[1..] + [sep] + rest;
      FirstSeparator(p[1..], rest, sep);
    }
  }

  /** A split has one more piece than the string has separators. */
  lemma {:induction false} SplitLength(s: string, sep: char)
    ensures |Split(s, sep)| == Count(s, sep) + 1
    decreases |s|
  {
    match IndexOf(s, sep)
    case None =>
      NoOccurrence(s, sep);
    case Some(k) =>
      SplitLength(s[k + 1..], sep);
      assert |Split(s, sep)| == 1 + |Split(s[k + 1..], sep)|;
      NoOccurrence(s[..k], sep);
      var after := [sep] + s[k + 1..];
      assert s == s[..k] + after;
      CountConcat(s[..k], after, sep);
      assert after[1..] == s[k + 1..];
      assert Count(after, sep) == 1 + Count(s[k + 1..], sep);
  }

  lemma {:induction false} NoOccurrence(s: string, c: char)
    requires c !in s
    ensures Count(s, c) == 0
  {
    if s != [] {
      assert s[0] != c;
      NoOccurrence(s[1..], c);
    }
  }

  lemma {:induction false} CountConcat(a: string, b: string, c: char)
    ensures Count(a + b, c) == Count(a, c) + Count(b, c)
  {
    if a != [] {
      assert (a + b)[1..] == a[1..] + b;
      CountConcat(a[1..], b, c);
    } else {
      assert a + b == b;
    }
  }

  /** `s` splits into exactly the two pieces around a lone separator at `k`. */
  ghost predicate LoneSeparatorAt(s: string, sep: char, k: int) {
    0 <= k < |s| && s[k] == sep && sep !in s[..k] && sep !in s[k + 1..]
  }

  /** A split yields two pieces exactly when the separator occurs once, and
      the pieces are then the text before and after it. */
  lemma TwoPieces(s: string, sep: char)
    ensures |Split(s, sep)| == 2 <==> exists k :: LoneSeparatorAt(s, sep, k)
    ensures forall k :: LoneSeparatorAt(s, sep, k) ==> Split(s, sep) == [s[..k], s[k + 1..]]
  {
    forall k | LoneSeparatorAt(s, sep, k)
      ensures Split(s, sep) == [s[..k], s[k + 1..]]
    {
      var parts := [s[..k], s[k + 1..]];
      assert s == s[..k] + [sep] + s[k + 1..];
      assert Join(parts[1..], sep) == s[k + 1..];
      SplitJoin(parts, sep);
    }
    if |Split(s, sep)| == 2 {
      var parts := Split(s, sep);
      JoinSplit(s, sep);
      assert s == parts[0] + [sep] + parts[1];
      assert s[..|parts[0]|] == parts[0];
      assert s[|parts[0]| + 1..] == parts[1];
      assert LoneSeparatorAt(s, sep, |parts[0]|);
    }
  }
}
