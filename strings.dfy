/**
 * The two functions of Go's `strings` package the asset processor calls,
 * `TrimSpace` and `Split`; `Index` is the search `Split` is built from, and
 * `Join` is here only to state that `Split` loses nothing.
 * Strings are sequences of Unicode characters.
 */
module Strings {
  import opened Wrappers

  /** White space in the sense of Go's `unicode.IsSpace`, which `strings.TrimSpace` strips. */
  predicate IsSpace(c: char) {
    || c == ' ' || c == '\t' || c == '\n' || c == '\U{000B}' || c == '\U{000C}' || c == '\r'
    || c == '\U{0085}' || c == '\U{00A0}' || c == '\U{1680}'
    || ('\U{2000}' <= c <= '\U{200A}')
    || c == '\U{2028}' || c == '\U{2029}' || c == '\U{202F}' || c == '\U{205F}' || c == '\U{3000}'
  }

  /** Every character of `s` is white space (the empty string included). */
  predicate IsBlank(s: string) {
    forall k :: 0 <= k < |s| ==> IsSpace(s[k])
  }

  /** Neither the first nor the last character of `s` is white space. */
  predicate IsTrimmed(s: string) {
    s == [] || (!IsSpace(s[0]) && !IsSpace(s[|s| - 1]))
  }

  /** `s` without its leading white space. */
  function TrimLeft(s: string): string {
    if |s| > 0 && IsSpace(s[0]) then TrimLeft(s[1..]) else s
  }

  /** `s` without its trailing white space. */
  function TrimRight(s: string): string {
    if |s| > 0 && IsSpace(s[|s| - 1]) then TrimRight(s[..|s| - 1]) else s
  }

  /** `TrimLeft` removes the longest blank prefix. */
  lemma {:induction false} TrimLeftSpec(s: string)
    ensures |TrimLeft(s)| <= |s| && TrimLeft(s) == s[|s| - |TrimLeft(s)|..]
    ensures IsBlank(s[..|s| - |TrimLeft(s)|])
    ensures TrimLeft(s) == [] || !IsSpace(TrimLeft(s)[0])
  {
    if |s| > 0 && IsSpace(s[0]) {
      TrimLeftSpec(s[1..]);
      var n := |s| - |TrimLeft(s)|;
      assert s[..n] == [s[0]] + s[1..][..n - 1];
    }
  }

  /** `TrimRight` removes the longest blank suffix. */
  lemma {:induction false} TrimRightSpec(s: string)
    ensures |TrimRight(s)| <= |s| && TrimRight(s) == s[..|TrimRight(s)|]
    ensures IsBlank(s[|TrimRight(s)|..])
    ensures TrimRight(s) == [] || !IsSpace(TrimRight(s)[|TrimRight(s)| - 1])
  {
    if |s| > 0 && IsSpace(s[|s| - 1]) {
      var init := s[..|s| - 1];
      TrimRightSpec(init);
      var n := |TrimRight(s)|;
      assert s[n..] == init[n..] + [s[|s| - 1]];
    }
  }

  /** `strings.TrimSpace`: the slice of `s` between its leading and its trailing white space. */
  function Trim(s: string): (r: string)
    ensures IsTrimmed(r)
    ensures r == [] <==> IsBlank(s)
    ensures |r| <= |s|
  {
    var left := TrimLeft(s);
    var r := TrimRight(left);
    TrimBlank(s, left, r);
    r
  }

  lemma TrimBlank(s: string, left: string, r: string)
    requires left == TrimLeft(s) && r == TrimRight(left)
    ensures IsTrimmed(r) && |r| <= |s|
    ensures r == [] <==> IsBlank(s)
  {
    TrimLeftSpec(s);
    TrimRightSpec(left);
    if r == [] {
      assert left == [];
      assert s[..|s| - |left|] == s;
    } else {
      assert r[0] == left[0];
    }
  }

  /** `Trim` is the slice of `s` left after removing its leading and its trailing white space. */
  lemma TrimSpec(s: string)
    ensures exists i, j :: 0 <= i <= j <= |s| && Trim(s) == s[i..j] && IsBlank(s[..i]) && IsBlank(s[j..])
  {
    var left := TrimLeft(s);
    TrimLeftSpec(s);
    TrimRightSpec(left);
    var i := |s| - |left|;
    var j := i + |Trim(s)|;
    assert Trim(s) == s[i..j];
    assert s[j..] == left[|Trim(s)|..];
  }

  /** Trimming is idempotent: a string with no white space at either end is its own trim. */
  lemma TrimTrimmed(s: string)
    requires IsTrimmed(s)
    ensures Trim(s) == s
  {
  }

  /** `sep` occurs in `s` starting at position `k`. */
  predicate OccursAt(s: string, sep: string, k: int) {
    0 <= k && k + |sep| <= |s| && s[k..k + |sep|] == sep
  }

  /** The first occurrence of `sep` in `s` at or after `from`, if any. */
  function IndexFrom(s: string, sep: string, from: nat): (r: Option<nat>)
    decreases |s| - from
    ensures r.Some? ==> from <= r.value && r.value + |sep| <= |s|
  {
    if from + |sep| > |s| then None
    else if s[from..from + |sep|] == sep then Some(from)
    else IndexFrom(s, sep, from + 1)
  }

  /** `IndexFrom` finds an occurrence, and no earlier one at or after `from`; or there is none. */
  lemma {:induction false} IndexFromSpec(s: string, sep: string, from: nat)
    ensures IndexFrom(s, sep, from).Some? ==>
      && OccursAt(s, sep, IndexFrom(s, sep, from).value)
      && forall k :: from <= k < IndexFrom(s, sep, from).value ==> !OccursAt(s, sep, k)
    ensures IndexFrom(s, sep, from).None? ==> forall k :: from <= k ==> !OccursAt(s, sep, k)
    decreases |s| - from
  {
    if from + |sep| <= |s| && s[from..from + |sep|] != sep {
      IndexFromSpec(s, sep, from + 1);
    }
  }

  /** `strings.Index`: the first occurrence of `sep` in `s`. */
  function Index(s: string, sep: string): (r: Option<nat>)
    ensures r.Some? ==> r.value + |sep| <= |s|
  {
    IndexFrom(s, sep, 0)
  }

  /** `Index` finds the first occurrence of `sep`, and finds nothing only when there is none. */
  lemma IndexSpec(s: string, sep: string)
    ensures Index(s, sep).Some? ==>
      && OccursAt(s, sep, Index(s, sep).value)
      && forall k :: 0 <= k < Index(s, sep).value ==> !OccursAt(s, sep, k)
    ensures Index(s, sep).None? ==> forall k :: !OccursAt(s, sep, k)
  {
    IndexFromSpec(s, sep, 0);
  }

  /** Each character of `s` as a string of its own (what `strings.Split` does for an empty separator). */
  function Explode(s: string): seq<string> {
    if s == [] then [] else [[s[0]]] + Explode(s[1..])
  }

  /**
   * `strings.Split`: the pieces of `s` between the non-overlapping occurrences
   * of `sep`, found from left to right.
   */
  function Split(s: string, sep: string): seq<string>
    decreases |s|
  {
    if sep == [] then Explode(s)
    else
      match Index(s, sep)
      case None => [s]
      case Some(i) => [s[..i]] + Split(s[i + |sep|..], sep)
  }

  /** With a non-empty separator there is always at least one piece. */
  lemma SplitNonEmpty(s: string, sep: string)
    requires sep != []
    ensures |Split(s, sep)| >= 1
  {
  }

  /** A split on a separator the input starts with begins with an empty piece. */
  lemma SplitLeadingSeparator(s: string, sep: string)
    requires sep != []
    ensures Split(sep + s, sep) == [""] + Split(s, sep)
  {
    var t := sep + s;
    assert t[0..|sep|] == sep;
    assert Index(t, sep) == Some(0);
    assert t[..0] == "" && t[|sep|..] == s;
  }

  /** `strings.Join`: the pieces with `sep` between consecutive ones. */
  function Join(parts: seq<string>, sep: string): string {
    if |parts| == 0 then []
    else if |parts| == 1 then parts[0]
    else parts[0] + sep + Join(parts[1..], sep)
  }

  lemma {:induction false} JoinExplode(s: string)
    ensures Join(Explode(s), []) == s
  {
    if s != [] {
      JoinExplode(s[1..]);
      assert Explode(s)[1..] == Explode(s[1..]);
    }
  }

  /** Round trip: joining the pieces of a split with the same separator gives back the input. */
  lemma {:induction false} JoinSplit(s: string, sep: string)
    ensures Join(Split(s, sep), sep) == s
    decreases |s|
  {
    if sep == [] {
      JoinExplode(s);
    } else {
      match Index(s, sep)
      case None =>
      case Some(i) =>
        var rest := s[i + |sep|..];
        JoinSplit(rest, sep);
        SplitNonEmpty(rest, sep);
        SplitAtIndex(s, sep, i);
    }
  }

  /** Cutting `s` around the first occurrence of `sep` at `i`, and joining back. */
  lemma {:induction false} SplitAtIndex(s: string, sep: string, i: nat)
    requires sep != [] && Index(s, sep) == Some(i)
    requires |Split(s[i + |sep|..], sep)| >= 1
    requires Join(Split(s[i + |sep|..], sep), sep) == s[i + |sep|..]
    ensures Join(Split(s, sep), sep) == s
  {
    IndexFound(s, sep);
    var rest := s[i + |sep|..];
    var parts := Split(s, sep);
    SplitStep(s, sep, i);
    assert parts[1..] == Split(rest, sep);
    assert Join(parts, sep) == s[..i] + sep + rest;
    Reassemble(s, i, i + |sep|);
  }

  /** A string is its three consecutive slices put together. */
  lemma Reassemble(s: string, i: nat, j: nat)
    requires i <= j <= |s|
    ensures s[..i] + s[i..j] + s[j..] == s
  {
    assert s[..i] + s[i..j] == s[..j];
  }

  /** An index found by `Index` is an occurrence. */
  lemma IndexFound(s: string, sep: string)
    ensures Index(s, sep).Some? ==> OccursAt(s, sep, Index(s, sep).value)
  {
    IndexFromSpec(s, sep, 0);
  }

  /**
   * What `strings.Split` promises for a non-empty separator: at least one piece,
   * no piece holding the separator, and the pieces joined by the separator are
   * the input.
   */
  lemma SplitSpec(s: string, sep: string)
    requires sep != []
    ensures |Split(s, sep)| >= 1
    ensures forall j, k :: 0 <= j < |Split(s, sep)| ==> !OccursAt(Split(s, sep)[j], sep, k)
    ensures Join(Split(s, sep), sep) == s
  {
    SplitNonEmpty(s, sep);
    JoinSplit(s, sep);
    forall j, k | 0 <= j < |Split(s, sep)| ensures !OccursAt(Split(s, sep)[j], sep, k) {
      SplitPiecesFree(s, sep, j, k);
    }
  }

  /** With a non-empty separator, no piece of a split contains the separator. */
  lemma {:induction false} SplitPiecesFree(s: string, sep: string, j: nat, k: int)
    requires sep != []
    requires j < |Split(s, sep)|
    ensures !OccursAt(Split(s, sep)[j], sep, k)
    decreases |s|
  {
    match Index(s, sep)
    case None =>
      IndexSpec(s, sep);
    case Some(i) =>
      SplitStep(s, sep, i);
      if j == 0 {
        IndexBefore(s, sep, i);
        PrefixFree(s, sep, i, k);
      } else {
        SplitPiecesFree(s[i + |sep|..], sep, j - 1, k);
      }
  }

  /** One step of `Split`: the piece before the first occurrence, then the split of the rest. */
  lemma {:induction false} SplitStep(s: string, sep: string, i: nat)
    requires sep != [] && Index(s, sep) == Some(i)
    ensures Split(s, sep) == [s[..i]] + Split(s[i + |sep|..], sep)
  {
  }

  /** There is no occurrence before the one `Index` finds. */
  lemma IndexBefore(s: string, sep: string, i: nat)
    requires Index(s, sep) == Some(i)
    ensures forall m :: 0 <= m < i ==> !OccursAt(s, sep, m)
  {
    IndexSpec(s, sep);
  }

  /** The part of `s` before its first occurrence of a non-empty `sep` does not contain `sep`. */
  lemma PrefixFree(s: string, sep: string, i: nat, k: int)
    requires sep != [] && i <= |s|
    requires forall m :: 0 <= m < i ==> !OccursAt(s, sep, m)
    ensures !OccursAt(s[..i], sep, k)
  {
    if 0 <= k && k + |sep| <= i {
      assert !OccursAt(s, sep, k);
      assert s[..i][k..k + |sep|] == s[k..k + |sep|];
    }
  }

  /** An occurrence with none before it is the one `Index` finds. */
  lemma IndexIs(s: string, sep: string, i: nat)
    requires OccursAt(s, sep, i)
    requires forall m :: 0 <= m < i ==> !OccursAt(s, sep, m)
    ensures Index(s, sep) == Some(i)
  {
    IndexSpec(s, sep);
  }

  /** A one-character separator occurs exactly where that character is. */
  lemma OccursAtChar(s: string, c: char, k: int)
    ensures OccursAt(s, [c], k) <==> 0 <= k < |s| && s[k] == c
  {
    if 0 <= k < |s| {
      assert s[k..k + 1] == [s[k]];
    }
  }

  /** Text appended after the first occurrence of `[c]` does not move it. */
  lemma IndexExtend(a: string, t: string, c: char, i: nat)
    requires Index(a, [c]) == Some(i)
    ensures Index(a + t, [c]) == Some(i)
  {
    IndexSpec(a, [c]);
    OccursAtChar(a, c, i);
    OccursAtChar(a + t, c, i);
    forall m | 0 <= m < i ensures !OccursAt(a + t, [c], m) {
      OccursAtChar(a, c, m);
      OccursAtChar(a + t, c, m);
    }
    IndexIs(a + t, [c], i);
  }

  /** When `a` holds no `c`, the first `c` of `a + [c] + b` is the one after `a`. */
  lemma IndexAfter(a: string, b: string, c: char)
    requires Index(a, [c]) == None
    ensures Index(a + [c] + b, [c]) == Some(|a|)
  {
    var s := a + [c] + b;
    IndexSpec(a, [c]);
    OccursAtChar(s, c, |a|);
    forall m | 0 <= m < |a| ensures !OccursAt(s, [c], m) {
      OccursAtChar(a, c, m);
      OccursAtChar(s, c, m);
    }
    IndexIs(s, [c], |a|);
  }

  /**
   * For a one-character separator, splitting around one occurrence splits the
   * text on either side: `Split(a + [c] + b)` is `Split(a)` followed by `Split(b)`.
   */
  lemma {:induction false} SplitAround(a: string, b: string, c: char)
    ensures Split(a + [c] + b, [c]) == Split(a, [c]) + Split(b, [c])
    decreases |a|
  {
    match Index(a, [c])
    case None =>
      SplitAroundFirst(a, b, c);
    case Some(i) =>
      var s := a + [c] + b;
      var rest := a[i + 1..];
      IndexExtend(a, [c] + b, c, i);
      assert a + ([c] + b) == s;
      calc {
        Split(s, [c]);
        == { SplitStep(s, [c], i); }
        [s[..i]] + Split(s[i + 1..], [c]);
        == { assert s[..i] == a[..i]; assert s[i + 1..] == rest + [c] + b; }
        [a[..i]] + Split(rest + [c] + b, [c]);
        == { SplitAround(rest, b, c); }
        [a[..i]] + (Split(rest, [c]) + Split(b, [c]));
        ([a[..i]] + Split(rest, [c])) + Split(b, [c]);
        == { SplitStep(a, [c], i); }
        Split(a, [c]) + Split(b, [c]);
      }
  }

  /** `SplitAround` when the occurrence between `a` and `b` is the first one. */
  lemma SplitAroundFirst(a: string, b: string, c: char)
    requires Index(a, [c]) == None
    ensures Split(a + [c] + b, [c]) == Split(a, [c]) + Split(b, [c])
  {
    var s := a + [c] + b;
    IndexAfter(a, b, c);
    SplitStep(s, [c], |a|);
    assert s[..|a|] == a && s[|a| + 1..] == b;
  }

  /** A trailing one-character separator adds an empty last piece. */
  lemma SplitTrailing(s: string, c: char)
    ensures Split(s + [c], [c]) == Split(s, [c]) + [""]
  {
    SplitAround(s, "", c);
    assert s + [c] + "" == s + [c];
    assert Index("", [c]) == None;
  }

  /** Two one-character separators in a row give an empty piece between the pieces on either side. */
  lemma SplitDouble(a: string, b: string, c: char)
    ensures Split(a + [c, c] + b, [c]) == Split(a, [c]) + [""] + Split(b, [c])
  {
    SplitAround(a, [c] + b, c);
    assert a + [c] + ([c] + b) == a + [c, c] + b;
    SplitLeadingSeparator(b, [c]);
  }

  /** The last element of a non-empty list. */
  function Last<T>(xs: seq<T>): T
    requires |xs| > 0
  {
    xs[|xs| - 1]
  }

  /**
   * The last piece of a split is a suffix of the input, and unless it is the
   * whole input it is directly preceded by the separator.
   */
  lemma {:induction false} SplitLastPiece(s: string, sep: string)
    requires sep != [] && |Split(s, sep)| >= 1
    ensures |Last(Split(s, sep))| <= |s|
    ensures s[|s| - |Last(Split(s, sep))|..] == Last(Split(s, sep))
    ensures |Split(s, sep)| == 1 ==> Last(Split(s, sep)) == s
    ensures |Split(s, sep)| > 1 ==> OccursAt(s, sep, |s| - |Last(Split(s, sep))| - |sep|)
  {
    var parts := Split(s, sep);
    var last := Last(parts);
    JoinSplit(s, sep);
    if |parts| > 1 {
      var init := parts[..|parts| - 1];
      InitLast(parts);
      JoinSnoc(init, last, sep);
      ThreeParts(s, Join(init, sep), sep, last);
    }
  }

  /** In `front + sep + last`, `last` is the suffix and `sep` occurs just before it. */
  lemma ThreeParts(s: string, front: string, sep: string, last: string)
    requires s == front + sep + last
    ensures |last| <= |s| && s[|s| - |last|..] == last
    ensures OccursAt(s, sep, |s| - |last| - |sep|)
  {
    assert s[|front|..|front| + |sep|] == sep;
    assert s[|s| - |last|..] == last;
  }

  /** A non-empty list is its front followed by its last element. */
  lemma InitLast<T>(xs: seq<T>)
    requires |xs| > 0
    ensures xs == xs[..|xs| - 1] + [Last(xs)]
  {
  }

  /** Appending a piece appends the separator and that piece to the join. */
  lemma {:induction false} JoinSnoc(parts: seq<string>, x: string, sep: string)
    requires |parts| >= 1
    ensures Join(parts + [x], sep) == Join(parts, sep) + sep + x
  {
    if |parts| > 1 {
      JoinSnoc(parts[1..], x, sep);
      assert (parts + [x])[1..] == parts[1..] + [x];
    }
  }
}
