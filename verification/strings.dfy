/** String helpers the transpiler takes from the C++ library and boost:
    `find`, `boost::replace_all` with a one-character pattern, and the
    `", "`-separated lists it assembles by appending `", " + item` and then
    dropping the first two characters. */
module Strings {
  import opened Wrappers

  /** Position of the first occurrence of `c` in `s` (`std::string::find`). */
  function IndexOf(s: string, c: char): (r: Option<nat>)
    ensures r.None? <==> c !in s
    ensures r.Some? ==> r.value < |s| && s[r.value] == c && c !in s[..r.value]
  {
    if |s| == 0 then None
    else if s[0] == c then Some(0)
    else
      match IndexOf(s[1..], c)
      case None => None
      case Some(k) =>
        assert s[..k + 1] == [s[0]] + s[1..][..k];
        Some(k + 1)
  }

  lemma IndexOfFirst(s: string, c: char, k: nat)
    requires k < |s| && s[k] == c && c !in s[..k]
    ensures IndexOf(s, c) == Some(k)
  {
    assert c in s;
  }

  /** `boost::replace_all(s, c, with)` for a one-character pattern `c`. */
  function ReplaceAll(s: string, c: char, with: string): (r: string)
    ensures c !in with ==> c !in r
    ensures |with| == 1 ==> |r| == |s|
    ensures |with| == 1 ==> forall i :: 0 <= i < |s| ==> r[i] == (if s[i] == c then with[0] else s[i])
  {
    if |s| == 0 then ""
    else (if s[0] == c then with else [s[0]]) + ReplaceAll(s[1..], c, with)
  }

  /** The items separated by `sep`. */
  function Join(xs: seq<string>, sep: string): string
  {
    if |xs| == 0 then ""
    else if |xs| == 1 then xs[0]
    else xs[0] + sep + Join(xs[1..], sep)
  }

  /** The string built by appending `sep + x` for every item `x`. */
  function Prefixed(xs: seq<string>, sep: string): string
  {
    if |xs| == 0 then "" else sep + xs[0] + Prefixed(xs[1..], sep)
  }

  /** Dropping the first separator of the appended form gives the joined list. */
  lemma {:induction false} PrefixedIsJoin(xs: seq<string>, sep: string)
    requires |xs| > 0
    ensures Prefixed(xs, sep) == sep + Join(xs, sep)
    ensures Prefixed(xs, sep)[|sep|..] == Join(xs, sep)
    decreases |xs|
  {
    if |xs| > 1 {
      PrefixedIsJoin(xs[1..], sep);
    }
  }

  /** Reads back a `", "`-separated list: cuts at each comma and drops the
      comma and the character after it. */
  function SplitList(s: string): (r: seq<string>)
    ensures |r| >= 1
    decreases |s|
  {
    match IndexOf(s, ',')
    case None => [s]
    case Some(k) => [s[..k]] + (if k + 2 <= |s| then SplitList(s[k + 2..]) else [""])
  }

  /** Joining with `", "` loses nothing when no item holds a comma. */
  lemma {:induction false} SplitListJoin(xs: seq<string>)
    requires |xs| > 0
    requires forall i :: 0 <= i < |xs| ==> ',' !in xs[i]
    ensures SplitList(Join(xs, ", ")) == xs
    decreases |xs|
  {
    if |xs| == 1 {
      assert IndexOf(Join(xs, ", "), ',').None?;
    } else {
      SplitListJoin(xs[1..]);
      SplitListJoinStep(xs);
    }
  }

  lemma SplitListJoinStep(xs: seq<string>)
    requires |xs| > 1 && ',' !in xs[0]
    requires SplitList(Join(xs[1..], ", ")) == xs[1..]
    ensures SplitList(Join(xs, ", ")) == xs
  {
    var j := Join(xs, ", ");
    var tail := Join(xs[1..], ", ");
    assert j == xs[0] + ", " + tail;
    assert j[..|xs[0]|] == xs[0];
    assert j[|xs[0]|] == ',';
    IndexOfFirst(j, ',', |xs[0]|);
    assert j[|xs[0]| + 2..] == tail;
    assert xs == [xs[0]] + xs[1..];
  }
}
