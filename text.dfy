/** The Python string builtins the masking script relies on: `str.isspace`,
    `str.strip()` without arguments, the `sep in s` test and `str.split(sep)`. */
module Text {

  datatype Option<+T> = None | Some(value: T)

  /** The characters Python 3's `str.isspace` accepts: the ASCII controls
      TAB..CR and FS..US, SPACE, NEL, NO-BREAK SPACE, OGHAM SPACE MARK, the
      spaces U+2000..U+200A, the line and paragraph separators, NARROW NO-BREAK
      SPACE, MEDIUM MATHEMATICAL SPACE and IDEOGRAPHIC SPACE. No proof below
      depends on which characters are in the set beyond what its contract
      says: the ASCII blanks and the ideographic space of Japanese text are in
      it, and the non-blank characters of the two section headings (`#`,
      `:`, `_`, `a`..`z`) are not. */
  predicate IsWhitespace(c: char)
    ensures c == ' ' || c == '\t' || c == '\n' || c == '\r' || c == '\U{3000}' ==> IsWhitespace(c)
    ensures c == '#' || c == ':' || c == '_' || 'a' <= c <= 'z' ==> !IsWhitespace(c)
  {
    || ('\t' <= c <= '\r')
    || ('\U{1C}' <= c <= ' ')
    || c == '\U{85}' || c == '\U{A0}' || c == '\U{1680}'
    || ('\U{2000}' <= c <= '\U{200A}')
    || c == '\U{2028}' || c == '\U{2029}' || c == '\U{202F}' || c == '\U{205F}'
    || c == '\U{3000}'
  }

  /** Neither end of `s` is whitespace. */
  predicate Trimmed(s: string)
  {
    s == [] || (!IsWhitespace(s[0]) && !IsWhitespace(s[|s| - 1]))
  }

  /** `r` is `s[i..j]`, every character before `i` and from `j` on is
      whitespace, and `r` starts and ends with a non-whitespace character: the
      whitespace runs cut off at either end are the longest ones there are. */
  ghost predicate StrippedAt(s: string, i: int, j: int, r: string)
  {
    && 0 <= i <= j <= |s|
    && r == s[i..j]
    && (forall m :: 0 <= m < i ==> IsWhitespace(s[m]))
    && (forall m :: j <= m < |s| ==> IsWhitespace(s[m]))
    && (i < j ==> !IsWhitespace(s[i]) && !IsWhitespace(s[j - 1]))
  }

  /** The first index at or after `i` that is not whitespace, or `|s|`. */
  function SkipLeading(s: string, i: nat): (k: nat)
    requires i <= |s|
    ensures i <= k <= |s|
    ensures forall m :: i <= m < k ==> IsWhitespace(s[m])
    ensures k < |s| ==> !IsWhitespace(s[k])
    decreases |s| - i
  {
    if i < |s| && IsWhitespace(s[i]) then SkipLeading(s, i + 1) else i
  }

  /** Moving down from `j`, but not below `lo`: the end of the last
      non-whitespace character, or `lo`. */
  function SkipTrailing(s: string, lo: nat, j: nat): (k: nat)
    requires lo <= j <= |s|
    ensures lo <= k <= j
    ensures forall m :: k <= m < j ==> IsWhitespace(s[m])
    ensures lo < k ==> !IsWhitespace(s[k - 1])
    decreases j
  {
    if lo < j && IsWhitespace(s[j - 1]) then SkipTrailing(s, lo, j - 1) else j
  }

  /** `s.strip()`: skip whitespace from the left, then from the right down to
      where the left scan stopped, and keep what lies between. */
  function Strip(s: string): (r: string)
    ensures StrippedAt(s, SkipLeading(s, 0), SkipTrailing(s, SkipLeading(s, 0), |s|), r)
  {
    var i := SkipLeading(s, 0);
    s[i..SkipTrailing(s, i, |s|)]
  }

  /** A stripped slice has no whitespace at its ends. */
  lemma StrippedAtTrimmed(s: string, i: int, j: int, r: string)
    requires StrippedAt(s, i, j, r)
    ensures Trimmed(r)
  {
    if i < j {
      assert r[0] == s[i] && r[|r| - 1] == s[j - 1];
    }
  }

  /** At most one slice of `s` is `s` stripped. */
  lemma StrippedAtUnique(s: string, i: int, j: int, r: string, i': int, j': int, r': string)
    requires StrippedAt(s, i, j, r) && StrippedAt(s, i', j', r')
    ensures r == r'
  {
    if i < j && i' < j' {
      assert i == i' && j == j';
    }
  }

  /** `Strip` is the only way to cut maximal whitespace runs off both ends. */
  lemma StripUnique(s: string, i: int, j: int, r: string)
    requires StrippedAt(s, i, j, r)
    ensures Strip(s) == r
  {
    var i0 := SkipLeading(s, 0);
    StrippedAtUnique(s, i, j, r, i0, SkipTrailing(s, i0, |s|), Strip(s));
  }

  /** `strip` leaves no whitespace at either end. */
  lemma StripTrimmed(s: string)
    ensures Trimmed(Strip(s))
  {
    var i0 := SkipLeading(s, 0);
    StrippedAtTrimmed(s, i0, SkipTrailing(s, i0, |s|), Strip(s));
  }

  /** Stripping a string with no whitespace at its ends changes nothing, so
      `strip` is idempotent. */
  lemma StripOfTrimmed(s: string)
    requires Trimmed(s)
    ensures Strip(s) == s
  {
    assert s[0..|s|] == s;
    StripUnique(s, 0, |s|, s);
  }

  /** A slice of a slice is a slice of the whole. */
  lemma SliceOfSlice(s: string, lo: int, hi: int, a: int, b: int)
    requires 0 <= lo <= hi <= |s| && 0 <= a <= b <= hi - lo
    ensures s[lo..hi][a..b] == s[lo + a..lo + b]
  {
    forall m | 0 <= m < b - a ensures s[lo..hi][a..b][m] == s[lo + a..lo + b][m] {
      assert s[lo..hi][a..b][m] == s[lo..hi][a + m] == s[lo + a + m];
    }
  }

  /** The three parts of a concatenation are its slices. */
  lemma ConcatSlices(a: string, b: string, c: string)
    ensures var p := a + b + c;
            && |p| == |a| + |b| + |c|
            && p[..|a|] == a
            && p[|a|..|a| + |b|] == b
            && p[|a| + |b|..] == c
  {
    var p := a + b + c;
    assert p[..|a| + |b|] == a + b;
    SliceOfSlice(p, 0, |a| + |b|, 0, |a|);
    SliceOfSlice(p, 0, |a| + |b|, |a|, |a| + |b|);
  }

  /** Cutting a string at two points and putting it back together. */
  lemma ConcatOfSlices(p: string, i: int, j: int)
    requires 0 <= i <= j <= |p|
    ensures p[..i] + p[i..j] + p[j..] == p
  {
  }

  /** Stripping a slice of `s` gives a slice of `s`. */
  lemma StripOfSlice(s: string, lo: int, hi: int)
    requires 0 <= lo <= hi <= |s|
    ensures exists i, j :: 0 <= i <= j <= |s| && Strip(s[lo..hi]) == s[i..j]
  {
    var piece := s[lo..hi];
    var a := SkipLeading(piece, 0);
    var b := SkipTrailing(piece, a, |piece|);
    assert Strip(piece) == piece[a..b];
    SliceOfSlice(s, lo, hi, a, b);
  }

  /** `sep` occurs in `s` starting at index `i`. */
  predicate OccursAt(s: string, sep: string, i: int)
  {
    0 <= i && i + |sep| <= |s| && s[i..i + |sep|] == sep
  }

  /** Python's `sep in s`: `sep` occurs somewhere in `s`, which is exactly
      when the leftmost search from the start finds it. */
  predicate Contains(s: string, sep: string)
    ensures Contains(s, sep) <==> FindFrom(s, sep, 0).Some?
  {
    exists i | 0 <= i <= |s| :: OccursAt(s, sep, i)
  }

  /** Occurrences in a suffix are the occurrences in the whole string, shifted. */
  lemma OccursAtSuffix(s: string, sep: string, off: int, k: int)
    requires 0 <= off <= |s| && 0 <= k
    ensures OccursAt(s[off..], sep, k) <==> OccursAt(s, sep, off + k)
  {
    if off + k + |sep| <= |s| {
      assert s[off..] == s[off..|s|];
      SliceOfSlice(s, off, |s|, k, k + |sep|);
    }
  }

  /** An occurrence inside a slice is an occurrence in the whole string. */
  lemma OccursAtSlice(s: string, sep: string, a: int, b: int, k: int)
    requires 0 <= a <= b <= |s| && OccursAt(s[a..b], sep, k)
    ensures OccursAt(s, sep, a + k)
  {
    SliceOfSlice(s, a, b, k, k + |sep|);
  }

  /** A slice of a string in which `sep` does not occur has no occurrence either. */
  lemma SliceNotContains(s: string, sep: string, a: int, b: int)
    requires !Contains(s, sep) && 0 <= a <= b <= |s|
    ensures !Contains(s[a..b], sep)
  {
    forall k | 0 <= k <= |s[a..b]| ensures !OccursAt(s[a..b], sep, k) {
      if OccursAt(s[a..b], sep, k) {
        OccursAtSlice(s, sep, a, b, k);
        assert false;
      }
    }
  }

  /** Stripping cannot create an occurrence. */
  lemma StripNotContains(s: string, sep: string)
    requires !Contains(s, sep)
    ensures !Contains(Strip(s), sep)
  {
    var i := SkipLeading(s, 0);
    SliceNotContains(s, sep, i, SkipTrailing(s, i, |s|));
  }

  /** The leftmost search for `sep` at or after `from` that `in` and `split`
      perform: the first index at or after `from` where `sep` occurs. */
  function FindFrom(s: string, sep: string, from: nat): (r: Option<nat>)
    ensures r.Some? ==> from <= r.value && OccursAt(s, sep, r.value)
    ensures forall k :: from <= k && (r.None? || k < r.value) ==> !OccursAt(s, sep, k)
    decreases |s| - from
  {
    if from + |sep| > |s| then None
    else if s[from..from + |sep|] == sep then Some(from)
    else FindFrom(s, sep, from + 1)
  }

  /** The search finds exactly the first occurrence, when there is one. */
  lemma FindFromFirst(s: string, sep: string, i: nat)
    requires OccursAt(s, sep, i)
    requires forall k :: 0 <= k < i ==> !OccursAt(s, sep, k)
    ensures FindFrom(s, sep, 0) == Some(i)
  {
  }

  /** Python's `s.split(sep)` for a non-empty `sep` (an empty one raises
      `ValueError`): the pieces between successive occurrences found left to
      right, each search starting after the previous occurrence. */
  function Split(s: string, sep: string): (parts: seq<string>)
    requires sep != []
    ensures |parts| >= 1
    decreases |s|
  {
    var f := FindFrom(s, sep, 0);
    if f.None? then [s] else [s[..f.value]] + Split(s[f.value + |sep|..], sep)
  }

  /** Python's `sep.join(parts)`. */
  function Join(parts: seq<string>, sep: string): (s: string)
  {
    if |parts| == 0 then ""
    else if |parts| == 1 then parts[0]
    else parts[0] + sep + Join(parts[1..], sep)
  }

  /** Unfolds `Split` at the first occurrence of the separator. */
  lemma SplitUnfold(s: string, sep: string, i: nat, rest: string)
    requires sep != [] && FindFrom(s, sep, 0) == Some(i)
    requires rest == s[i + |sep|..]
    ensures Split(s, sep) == [s[..i]] + Split(rest, sep)
  {
  }

  /** Joining the pieces with the separator gives the original string back. */
  lemma {:induction false} SplitJoin(s: string, sep: string)
    requires sep != []
    ensures Join(Split(s, sep), sep) == s
    decreases |s|
  {
    var f := FindFrom(s, sep, 0);
    if f.Some? {
      var i := f.value;
      var rest := s[i + |sep|..];
      SplitUnfold(s, sep, i, rest);
      var tail := Split(rest, sep);
      SplitJoin(rest, sep);
      assert ([s[..i]] + tail)[1..] == tail;
      assert Join([s[..i]] + tail, sep) == s[..i] + sep + Join(tail, sep);
      assert s == s[..i] + sep + rest;
    }
  }

  /** The text before the first occurrence does not contain the separator. */
  lemma FirstPieceFree(s: string, sep: string, i: nat)
    requires sep != [] && FindFrom(s, sep, 0) == Some(i)
    ensures !Contains(s[..i], sep)
  {
    forall k | 0 <= k <= i ensures !OccursAt(s[..i], sep, k) {
      if OccursAt(s[..i], sep, k) {
        assert s[..i] == s[0..i];
        OccursAtSlice(s, sep, 0, i, k);
        assert false;
      }
    }
  }

  /** No piece contains the separator. */
  lemma {:induction false} SplitPiecesFree(s: string, sep: string)
    requires sep != []
    ensures forall k :: 0 <= k < |Split(s, sep)| ==> !Contains(Split(s, sep)[k], sep)
    decreases |s|
  {
    var f := FindFrom(s, sep, 0);
    if f.Some? {
      var i := f.value;
      var rest := s[i + |sep|..];
      SplitUnfold(s, sep, i, rest);
      SplitPiecesFree(rest, sep);
      FirstPieceFree(s, sep, i);
      var parts := Split(s, sep);
      var tail := Split(rest, sep);
      forall k | 0 <= k < |parts| ensures !Contains(parts[k], sep) {
        if k > 0 {
          assert parts[k] == tail[k - 1];
        }
      }
    } else {
      assert Split(s, sep) == [s];
    }
  }

  /** There is a second piece exactly when the separator occurs. */
  lemma SplitHasSecond(s: string, sep: string)
    requires sep != []
    ensures |Split(s, sep)| >= 2 <==> Contains(s, sep)
  {
  }

  /** The first piece runs up to the first occurrence, or to the end. */
  lemma SplitFirst(t: string, sep: string, e: nat)
    requires sep != [] && e <= |t|
    requires e == |t| || OccursAt(t, sep, e)
    requires forall k :: 0 <= k < e ==> !OccursAt(t, sep, k)
    ensures Split(t, sep)[0] == t[..e]
  {
    if e < |t| {
      FindFromFirst(t, sep, e);
      SplitUnfold(t, sep, e, t[e + |sep|..]);
    } else {
      assert FindFrom(t, sep, 0).None?;
      assert Split(t, sep) == [t];
    }
  }

  /** The no-occurrence facts about `s[off..e]` in terms of the suffix `s[off..]`. */
  lemma NoOccurrenceInSuffix(s: string, sep: string, off: nat, e: nat)
    requires off <= e <= |s|
    requires e == |s| || OccursAt(s, sep, e)
    requires forall k :: off <= k < e ==> !OccursAt(s, sep, k)
    ensures e - off == |s[off..]| || OccursAt(s[off..], sep, e - off)
    ensures forall k :: 0 <= k < e - off ==> !OccursAt(s[off..], sep, k)
  {
    forall k | 0 <= k < e - off ensures !OccursAt(s[off..], sep, k) {
      OccursAtSuffix(s, sep, off, k);
    }
    if e < |s| {
      OccursAtSuffix(s, sep, off, e - off);
    }
  }

  /** The first two pieces: when `sep` first occurs at `i` and next occurs at
      `e` (or `e` is the end of `s` and it does not occur again), the first
      piece is `s[..i]` and the second is `s[i + |sep|..e]`. */
  lemma SplitSecond(s: string, sep: string, i: nat, e: nat)
    requires sep != []
    requires OccursAt(s, sep, i)
    requires forall k :: 0 <= k < i ==> !OccursAt(s, sep, k)
    requires i + |sep| <= e <= |s|
    requires e == |s| || OccursAt(s, sep, e)
    requires forall k :: i + |sep| <= k < e ==> !OccursAt(s, sep, k)
    ensures |Split(s, sep)| >= 2
    ensures Split(s, sep)[0] == s[..i]
    ensures Split(s, sep)[1] == s[i + |sep|..e]
  {
    FindFromFirst(s, sep, i);
    var off := i + |sep|;
    var rest := s[off..];
    SplitUnfold(s, sep, i, rest);
    NoOccurrenceInSuffix(s, sep, off, e);
    SplitFirst(rest, sep, e - off);
    assert rest == s[off..|s|];
    SliceOfSlice(s, off, |s|, 0, e - off);
  }

  /** The second piece found from the search itself: after the first
      occurrence, up to the next occurrence or the end of `s`. */
  lemma SplitSecondFound(s: string, sep: string)
    requires sep != [] && Contains(s, sep)
    ensures FindFrom(s, sep, 0).Some?
    ensures var i := FindFrom(s, sep, 0).value;
            var next := FindFrom(s, sep, i + |sep|);
            && i + |sep| <= |s|
            && |Split(s, sep)| >= 2
            && Split(s, sep)[1] == s[i + |sep|..if next.None? then |s| else next.value]
  {
    var i := FindFrom(s, sep, 0).value;
    var next := FindFrom(s, sep, i + |sep|);
    SplitSecond(s, sep, i, if next.None? then |s| else next.value);
  }
}
