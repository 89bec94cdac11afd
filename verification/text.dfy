/** Optional values, used wherever the source yields `undefined`. */
module Optional {

  datatype Option<+T> = None | Some(value: T)
}

/** String primitives the plugin relies on: substring search (Obsidian's
    `String.prototype.contains`, an alias of `includes`) and `split` on a
    single separator character. A Dafny `char` is a Unicode scalar value;
    every delimiter the plugin searches for lies in the Basic Multilingual
    Plane, where one scalar value is one JavaScript code unit. */
module Text {
  import opened Optional

  /** `p` occurs in `s` at index `i`. */
  predicate OccursAt(s: string, p: string, i: nat)
  {
    i + |p| <= |s| && s[i..i + |p|] == p
  }

  /** Reference meaning of `s.contains(p)`: `p` occurs somewhere in `s`
      (the empty string occurs in every string). */
  ghost predicate Contains(s: string, p: string)
  {
    exists i: nat :: OccursAt(s, p, i)
  }

  /** Left-to-right search for `p` in `s` starting at index `i`. */
  function IncludesFrom(s: string, p: string, i: nat): (r: bool)
    requires i <= |s|
    ensures r <==> exists j: nat :: i <= j && OccursAt(s, p, j)
    decreases |s| - i
  {
    if OccursAt(s, p, i) then true
    else if i == |s| then false
    else IncludesFrom(s, p, i + 1)
  }

  /** The executable substring test, `s.contains(p)`. */
  function Includes(s: string, p: string): (r: bool)
    ensures r <==> Contains(s, p)
  {
    IncludesFrom(s, p, 0)
  }

  /** Index of the first `c` in `s`, if any (`indexOf`). */
  function FirstIndexOf(s: string, c: char): (r: Option<nat>)
    ensures r.Some? ==> r.value < |s| && s[r.value] == c && c !in s[..r.value]
    ensures r.None? <==> c !in s
  {
    if |s| == 0 then None
    else if s[0] == c then Some(0)
    else
      match FirstIndexOf(s[1..], c)
      case None => None
      case Some(k) =>
        assert s[..k + 1] == [s[0]] + s[1..][..k];
        Some(k + 1)
  }

  /** The first occurrence of `c` is unique: any index holding `c` with no
      `c` before it is the one `FirstIndexOf` finds. */
  lemma {:induction false} FirstIndexOfIs(s: string, c: char, k: nat)
    requires k < |s| && s[k] == c && c !in s[..k]
    ensures FirstIndexOf(s, c) == Some(k)
  {
    assert c in s by { assert s[k] == c; }
    var m := FirstIndexOf(s, c).value;
    assert forall j :: 0 <= j < k ==> s[..k][j] == s[j];
    assert forall j :: 0 <= j < m ==> s[..m][j] == s[j];
  }

  /** Inverse of `Split`: the parts glued back with the separator. */
  function Join(parts: seq<string>, d: char): string
    requires |parts| >= 1
  {
    if |parts| == 1 then parts[0] else parts[0] + [d] + Join(parts[1..], d)
  }

  /** `s.split(d)` for a one-character separator `d`: the maximal runs of
      non-`d` characters between separators, including empty ones. */
  function Split(s: string, d: char): (parts: seq<string>)
    ensures |parts| >= 1
    ensures forall k :: 0 <= k < |parts| ==> d !in parts[k]
    ensures Join(parts, d) == s
    decreases |s|
  {
    match FirstIndexOf(s, d)
    case None => [s]
    case Some(i) =>
      var rest := Split(s[i + 1..], d);
      assert ([s[..i]] + rest)[1..] == rest;
      assert s == s[..i] + [d] + s[i + 1..];
      [s[..i]] + rest
  }

  /** Splitting at the first separator: the first part is everything before
      it, and the rest is the split of everything after it. */
  lemma {:induction false} SplitAtFirst(s: string, d: char, i: nat)
    requires i < |s| && s[i] == d && d !in s[..i]
    ensures Split(s, d) == [s[..i]] + Split(s[i + 1..], d)
  {
    FirstIndexOfIs(s, d, i);
  }
}
