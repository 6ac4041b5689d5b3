/** Python's `str.replace(old, new)` for a non-empty `old`, and the reference
    definition it is proved against: `new.join(s.split(old))`. */
module TextReplace {
  import opened Wrappers

  /** `p` occurs in `s` starting at index `i`. */
  predicate OccursAt(s: string, p: string, i: int) {
    0 <= i && i + |p| <= |s| && s[i..i + |p|] == p
  }

  ghost predicate Contains(s: string, p: string) {
    exists i :: OccursAt(s, p, i)
  }

  lemma OccursInTail(s: string, p: string, j: nat)
    requires s != []
    ensures OccursAt(s[1..], p, j) <==> OccursAt(s, p, j + 1)
  {
  }

  lemma OccursInPrefix(s: string, n: nat, p: string, j: int)
    requires n <= |s|
    ensures OccursAt(s[..n], p, j) ==> OccursAt(s, p, j)
  {
  }

  /** `str.replace`: scan left to right; at an occurrence emit `r` and resume
      after it, otherwise copy one character. Occurrences never overlap.
      Replacing an occurrence by itself changes nothing: `s.replace(p, p) == s`. */
  function Replace(s: string, p: string, r: string): (out: string)
    requires p != []
    ensures r == p ==> out == s
    decreases |s|
  {
    if s == [] then []
    else if p <= s then
      assert r == p ==> s == p + s[|p|..];
      r + Replace(s[|p|..], p, r)
    else [s[0]] + Replace(s[1..], p, r)
  }

  /** `str.find(p, i)`: the leftmost occurrence at or after `i`. */
  function FindFrom(s: string, p: string, i: nat): (k: Option<nat>)
    requires p != []
    ensures k.Some? ==> i <= k.value && OccursAt(s, p, k.value)
    ensures k.Some? ==> forall j :: i <= j < k.value ==> !OccursAt(s, p, j)
    ensures k.None? ==> forall j :: i <= j ==> !OccursAt(s, p, j)
    decreases |s| - i
  {
    if i + |p| > |s| then None
    else if OccursAt(s, p, i) then Some(i)
    else FindFrom(s, p, i + 1)
  }

  /** `str.split(p)`: the pieces between successive leftmost occurrences. */
  function Split(s: string, p: string): (pieces: seq<string>)
    requires p != []
    ensures |pieces| >= 1
    decreases |s|
  {
    match FindFrom(s, p, 0)
    case None => [s]
    case Some(k) => [s[..k]] + Split(s[k + |p|..], p)
  }

  /** `sep.join(pieces)`. */
  function Join(pieces: seq<string>, sep: string): (r: string) {
    if pieces == [] then []
    else if |pieces| == 1 then pieces[0]
    else pieces[0] + sep + Join(pieces[1..], sep)
  }

  /** Text without an occurrence of `p` is left unchanged. */
  lemma {:induction false} ReplaceAbsent(s: string, p: string, r: string)
    requires p != []
    requires forall j :: !OccursAt(s, p, j)
    ensures Replace(s, p, r) == s
    decreases |s|
  {
    if s != [] {
      assert !(p <= s) by {
        if p <= s { assert OccursAt(s, p, 0); }
      }
      forall j ensures !OccursAt(s[1..], p, j) {
        if j >= 0 { OccursInTail(s, p, j); }
      }
      ReplaceAbsent(s[1..], p, r);
      assert s == [s[0]] + s[1..];
    }
  }

  /** Up to the leftmost occurrence at `k`, `Replace` copies the text, then
      emits `r` and continues after the occurrence. */
  lemma {:induction false} ReplaceAtLeftmost(s: string, p: string, r: string, k: nat)
    requires p != []
    requires OccursAt(s, p, k)
    requires forall j :: 0 <= j < k ==> !OccursAt(s, p, j)
    ensures Replace(s, p, r) == s[..k] + r + Replace(s[k + |p|..], p, r)
    decreases k
  {
    if k == 0 {
      PrefixIsOccurrence(s, p);
    } else {
      LeftmostInTail(s, p, k);
      ReplaceAtLeftmost(s[1..], p, r, k - 1);
      ReplaceShift(s, p, r, k);
    }
  }

  /** The leftmost occurrence moves one index down in the tail. */
  lemma LeftmostInTail(s: string, p: string, k: nat)
    requires 0 < k && OccursAt(s, p, k)
    requires forall j :: 0 <= j < k ==> !OccursAt(s, p, j)
    ensures OccursAt(s[1..], p, k - 1)
    ensures forall j :: 0 <= j < k - 1 ==> !OccursAt(s[1..], p, j)
  {
    OccursInTail(s, p, k - 1);
    forall j | 0 <= j < k - 1 ensures !OccursAt(s[1..], p, j) {
      OccursInTail(s, p, j);
    }
  }

  /** One step of `ReplaceAtLeftmost`: the first character is copied in front
      of what the tail produces. */
  lemma ReplaceShift(s: string, p: string, r: string, k: nat)
    requires p != [] && 0 < k && k + |p| <= |s|
    requires !OccursAt(s, p, 0)
    requires Replace(s[1..], p, r) == s[1..][..k - 1] + r + Replace(s[1..][k - 1 + |p|..], p, r)
    ensures Replace(s, p, r) == s[..k] + r + Replace(s[k + |p|..], p, r)
  {
    ReplaceCopiesFirst(s, p, r);
    SliceOfTail(s, k, |p|);
    ConcatRegroup([s[0]], s[1..][..k - 1], r, Replace(s[k + |p|..], p, r));
  }

  lemma ConcatRegroup(a: string, b: string, c: string, d: string)
    ensures a + (b + c + d) == (a + b) + c + d
  {
  }

  lemma PrefixIsOccurrence(s: string, p: string)
    ensures p <= s <==> OccursAt(s, p, 0)
  {
    if OccursAt(s, p, 0) {
      assert s[..|p|] == p;
    }
  }

  /** Without an occurrence at the start, `Replace` copies the first character. */
  lemma ReplaceCopiesFirst(s: string, p: string, r: string)
    requires p != [] && s != []
    requires !OccursAt(s, p, 0)
    ensures Replace(s, p, r) == [s[0]] + Replace(s[1..], p, r)
  {
    PrefixIsOccurrence(s, p);
  }

  lemma SliceOfTail(s: string, k: nat, n: nat)
    requires 0 < k && k + n <= |s|
    ensures [s[0]] + s[1..][..k - 1] == s[..k]
    ensures s[1..][k - 1 + n..] == s[k + n..]
  {
  }

  /** `s.replace(p, r) == r.join(s.split(p))`: every non-overlapping occurrence,
      found left to right, is replaced and everything between them is kept. */
  lemma {:induction false} ReplaceIsJoinOfSplit(s: string, p: string, r: string)
    requires p != []
    ensures Replace(s, p, r) == Join(Split(s, p), r)
    decreases |s|
  {
    match FindFrom(s, p, 0)
    case None =>
      ReplaceAbsent(s, p, r);
    case Some(k) =>
      var rest := s[k + |p|..];
      ReplaceAtLeftmost(s, p, r, k);
      ReplaceIsJoinOfSplit(rest, p, r);
      assert Split(s, p) == [s[..k]] + Split(rest, p);
      assert ([s[..k]] + Split(rest, p))[1..] == Split(rest, p);
  }

  /** The pieces of `Split` rebuild the text and none of them holds `p`. */
  lemma {:induction false} SplitPieces(s: string, p: string)
    requires p != []
    ensures Join(Split(s, p), p) == s
    ensures forall k :: 0 <= k < |Split(s, p)| ==> !Contains(Split(s, p)[k], p)
    decreases |s|
  {
    ReplaceIsJoinOfSplit(s, p, p);
    match FindFrom(s, p, 0)
    case None =>
    case Some(k) =>
      var rest := s[k + |p|..];
      SplitPieces(rest, p);
      assert !Contains(s[..k], p) by {
        forall j ensures !OccursAt(s[..k], p, j) {
          OccursInPrefix(s, k, p, j);
        }
      }
      var pieces := Split(s, p);
      assert pieces == [s[..k]] + Split(rest, p);
      forall i | 0 <= i < |pieces| ensures !Contains(pieces[i], p) {
        if i > 0 { assert pieces[i] == Split(rest, p)[i - 1]; }
      }
  }
}
