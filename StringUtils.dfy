/** Prefix and suffix tests and a replace-all over strings (wrt::utils). */
module StringUtils {
  import opened Wrappers
  import opened Sequences

  /** `str` begins with `sub`: a length guard, then a front-to-front element comparison. */
  function StartsWith(str: string, sub: string): (r: bool)
    ensures r <==> sub <= str
    ensures |sub| > |str| ==> !r
    ensures sub == [] ==> r
  {
    if |sub| > |str| then false
    else forall i :: 0 <= i < |sub| ==> sub[i] == str[i]
  }

  /**
   * `str` ends with `sub`: a length guard, then an element comparison that
   * walks both strings from their ends (the pairs compared are the same as
   * pairing `sub[j]` with `str[|str| - |sub| + j]`).
   */
  function EndsWith(str: string, sub: string): (r: bool)
    ensures r <==> |sub| <= |str| && str[|str| - |sub|..] == sub
    ensures |sub| > |str| ==> !r
  {
    if |sub| > |str| then false
    else forall j :: 0 <= j < |sub| ==> sub[j] == str[|str| - |sub| + j]
  }

  function Reverse(s: string): (r: string)
    ensures |r| == |s|
  {
    if s == [] then [] else Reverse(s[1..]) + [s[0]]
  }

  lemma {:induction false} ReverseAt(s: string, k: nat)
    requires k < |s|
    ensures Reverse(s)[k] == s[|s| - 1 - k]
  {
    if k < |s| - 1 {
      ReverseAt(s[1..], k);
    }
  }

  /** Comparing through reverse iterators: a suffix test is a prefix test on the reversed strings. */
  lemma EndsWithIsReversedStartsWith(str: string, sub: string)
    ensures EndsWith(str, sub) == StartsWith(Reverse(str), Reverse(sub))
  {
    if |sub| <= |str| {
      if EndsWith(str, sub) {
        forall i | 0 <= i < |sub| ensures Reverse(sub)[i] == Reverse(str)[i] {
          ReverseAt(sub, i);
          ReverseAt(str, i);
          var j := |sub| - 1 - i;
          assert sub[j] == str[|str| - |sub| + j];
        }
      } else {
        var j :| 0 <= j < |sub| && sub[j] != str[|str| - |sub| + j];
        var i := |sub| - 1 - j;
        ReverseAt(sub, i);
        ReverseAt(str, i);
        assert Reverse(sub)[i] != Reverse(str)[i];
      }
    }
  }

  /** A prefix (suffix) test succeeds exactly when the string splits into `sub` and the rest. */
  lemma StartsWithConcat(a: string, b: string, str: string, sub: string)
    ensures StartsWith(a + b, a)
    ensures EndsWith(a + b, b)
    ensures StartsWith(str, sub) ==> str == sub + str[|sub|..]
    ensures EndsWith(str, sub) ==> str == str[..|str| - |sub|] + sub
  {
    if StartsWith(str, sub) {
      assert str[..|sub|] == sub;
      assert str == str[..|sub|] + str[|sub|..];
    }
    if EndsWith(str, sub) {
      assert str == str[..|str| - |sub|] + str[|str| - |sub|..];
    }
  }

  /** `pat` occurs in `s` at position `i`. */
  predicate OccursAt(s: string, pat: string, i: nat)
  {
    i + |pat| <= |s| && s[i..i + |pat|] == pat
  }

  /**
   * The first position at or after `start` where `pat` occurs in `s`, as
   * `std::string::find(pat, start)` computes it; `None` plays `npos`. A start
   * past the end finds nothing; an empty pattern is found at `start` itself
   * whenever `start <= |s|`.
   */
  function FindFrom(s: string, pat: string, start: nat): (r: Option<nat>)
    ensures r.Some? ==> start <= r.value && OccursAt(s, pat, r.value)
    ensures r.Some? ==> forall i :: start <= i < r.value ==> !OccursAt(s, pat, i)
    ensures r.None? ==> forall i :: start <= i ==> !OccursAt(s, pat, i)
    decreases |s| - start
  {
    if start + |pat| > |s| then None
    else if OccursAt(s, pat, start) then Some(start)
    else FindFrom(s, pat, start + 1)
  }

  lemma OccursAtShift(s: string, pat: string, k: nat, i: nat)
    requires k <= |s|
    ensures OccursAt(s[k..], pat, i) == OccursAt(s, pat, k + i)
  {
  }

  /** Searching `s` from `k` is searching its suffix `s[k..]` from 0, shifted by `k`. */
  lemma FindFromShift(s: string, pat: string, k: nat)
    requires k <= |s|
    ensures FindFrom(s, pat, k) ==
      match FindFrom(s[k..], pat, 0)
      case None => None
      case Some(j) => Some(k + j)
  {
    var r := FindFrom(s, pat, k);
    match FindFrom(s[k..], pat, 0)
    case None =>
      if r.Some? {
        OccursAtShift(s, pat, k, r.value - k);
      }
    case Some(j) =>
      OccursAtShift(s, pat, k, j);
      if r.Some? && r.value < k + j {
        OccursAtShift(s, pat, k, r.value - k);
      }
  }

  /**
   * The meaning of `ReplaceAll`: find the leftmost occurrence of `from`, keep
   * the text before it, emit `to`, and continue on the text after the match.
   * Text coming from `to` is never searched again.
   */
  function ReplaceAllSpec(s: string, from: string, to: string): (r: string)
    requires |from| > 0
    ensures |s| < |from| ==> r == s
    ensures |to| == |from| ==> |r| == |s|
    decreases |s|
  {
    match FindFrom(s, from, 0)
    case None => s
    case Some(i) => s[..i] + to + ReplaceAllSpec(s[i + |from|..], from, to)
  }

  /** How many replacements `ReplaceAll` performs on `s`. */
  function Replacements(s: string, from: string): nat
    requires |from| > 0
    decreases |s|
  {
    match FindFrom(s, from, 0)
    case None => 0
    case Some(i) => 1 + Replacements(s[i + |from|..], from)
  }

  /**
   * Replaces every non-overlapping occurrence of `from`, left to right,
   * resuming each search just after the inserted text. With an empty `from`
   * the search always succeeds, so the loop never exits normally: with an
   * empty `to` it runs forever, otherwise the string grows on every pass
   * until an exception ends the call. Callers must not pass one.
   */
  method ReplaceAll(replace: string, from: string, to: string) returns (str: string)
    requires |from| > 0
    ensures str == ReplaceAllSpec(replace, from, to)
  {
    str := replace;
    ghost var done: nat := 0;
    var pos := FindFrom(str, from, 0);
    while pos.Some?
      invariant done <= |str|
      invariant pos == FindFrom(str, from, done)
      invariant str[..done] + ReplaceAllSpec(str[done..], from, to) == ReplaceAllSpec(replace, from, to)
      decreases |str| - done
    {
      var p := pos.value;
      ReplaceStep(str, from, to, done, p);
      var next := str[..p] + to + str[p + |from|..];
      assert next[..p + |to|] == str[..p] + to;
      assert next[p + |to|..] == str[p + |from|..];
      str := next;
      var resume := p + |to|;
      pos := FindFrom(str, from, resume);
      done := resume;
    }
    FindFromShift(str, from, done);
    assert str[..done] + str[done..] == str;
  }

  /** One pass of the loop: the match found from `done` is the leftmost one of the unprocessed rest. */
  lemma ReplaceStep(str: string, from: string, to: string, done: nat, p: nat)
    requires |from| > 0
    requires done <= |str|
    requires FindFrom(str, from, done) == Some(p)
    ensures str[..done] + ReplaceAllSpec(str[done..], from, to)
         == str[..p] + to + ReplaceAllSpec(str[p + |from|..], from, to)
  {
    var rest, j := str[done..], p - done;
    FindFromShiftSome(str, from, done, p);
    SpecAtMatch(rest, from, to, j);
    var tail := ReplaceAllSpec(rest[j + |from|..], from, to);
    assert rest[j + |from|..] == str[p + |from|..];
    assert str[..done] + rest[..j] == str[..p];
    AppendAssoc(str[..done], rest[..j] + to, tail);
    AppendAssoc(str[..done], rest[..j], to);
  }

  lemma FindFromShiftSome(str: string, from: string, done: nat, p: nat)
    requires done <= |str|
    requires FindFrom(str, from, done) == Some(p)
    ensures done <= p && FindFrom(str[done..], from, 0) == Some(p - done)
  {
    FindFromShift(str, from, done);
  }

  /** The specification at a match: the text before it, then `to`, then the rest after the match. */
  lemma SpecAtMatch(s: string, from: string, to: string, j: nat)
    requires |from| > 0
    requires FindFrom(s, from, 0) == Some(j)
    ensures j + |from| <= |s|
    ensures ReplaceAllSpec(s, from, to) == s[..j] + to + ReplaceAllSpec(s[j + |from|..], from, to)
  {
    SpecAtMatchLength(s, from, to, j);
    forall k | 0 <= k < |ReplaceAllSpec(s, from, to)|
      ensures ReplaceAllSpec(s, from, to)[k] == (s[..j] + to + ReplaceAllSpec(s[j + |from|..], from, to))[k]
    {
      SpecAtMatchAt(s, from, to, j, k);
    }
  }

  lemma SpecAtMatchLength(s: string, from: string, to: string, j: nat)
    requires |from| > 0
    requires FindFrom(s, from, 0) == Some(j)
    ensures |ReplaceAllSpec(s, from, to)| == j + |to| + |ReplaceAllSpec(s[j + |from|..], from, to)|
  {
  }

  lemma SpecAtMatchAt(s: string, from: string, to: string, j: nat, k: nat)
    requires |from| > 0
    requires FindFrom(s, from, 0) == Some(j)
    requires k < |ReplaceAllSpec(s, from, to)|
    ensures j + |from| <= |s|
    ensures ReplaceAllSpec(s, from, to)[k] == (s[..j] + to + ReplaceAllSpec(s[j + |from|..], from, to))[k]
  {
    var tail := ReplaceAllSpec(s[j + |from|..], from, to);
    assert ReplaceAllSpec(s, from, to) == s[..j] + to + tail;
  }

  /** When `from` does not occur at all, the input comes back unchanged. */
  lemma ReplaceAllNoMatch(s: string, from: string, to: string)
    requires |from| > 0
    requires forall i: nat :: !OccursAt(s, from, i)
    ensures ReplaceAllSpec(s, from, to) == s
    ensures Replacements(s, from) == 0
  {
  }

  /** Replacing a string by itself changes nothing. */
  lemma {:induction false} ReplaceAllSameIsIdentity(s: string, from: string)
    requires |from| > 0
    ensures ReplaceAllSpec(s, from, from) == s
    decreases |s|
  {
    match FindFrom(s, from, 0)
    case None =>
    case Some(i) =>
      ReplaceAllSameIsIdentity(s[i + |from|..], from);
      assert s[..i] + from + s[i + |from|..] == s by {
        assert s[i..i + |from|] == from;
        assert s == s[..i] + s[i..i + |from|] + s[i + |from|..];
      }
  }

  /** Each replacement trades `|from|` characters for `|to|` characters. */
  lemma {:induction false} ReplaceAllLength(s: string, from: string, to: string)
    requires |from| > 0
    ensures |ReplaceAllSpec(s, from, to)| + Replacements(s, from) * |from|
         == |s| + Replacements(s, from) * |to|
    decreases |s|
  {
    match FindFrom(s, from, 0)
    case None =>
    case Some(i) =>
      var rest := s[i + |from|..];
      var n := Replacements(rest, from);
      ReplaceAllLength(rest, from, to);
      assert Replacements(s, from) == 1 + n;
      assert |s| == i + |from| + |rest|;
      assert |ReplaceAllSpec(s, from, to)| == i + |to| + |ReplaceAllSpec(rest, from, to)|;
      CountStep(|ReplaceAllSpec(s, from, to)|, |ReplaceAllSpec(rest, from, to)|, |s|, |rest|, i, |from|, |to|, n);
  }

  lemma CountStep(len: int, restLen: int, size: int, restSize: int, i: int, a: int, b: int, n: int)
    requires len == i + b + restLen && size == i + a + restSize
    requires restLen + n * a == restSize + n * b
    ensures len + (1 + n) * a == size + (1 + n) * b
  {
  }

  /** Text introduced by `to` is not searched again: replacing "a" by "aa" terminates and doubles. */
  lemma ReplaceAllSkipsInsertedText()
    ensures ReplaceAllSpec("aa", "a", "aa") == "aaaa"
    ensures ReplaceAllSpec("aaa", "aa", "b") == "ba"
  {
    assert OccursAt("aa", "a", 0);
    assert "aa"[1..] == "a";
    assert OccursAt("a", "a", 0);
    assert "a"[1..] == "";
    assert OccursAt("aaa", "aa", 0);
    assert "aaa"[2..] == "a";
    assert FindFrom("a", "aa", 0) == None;
  }

  /** An empty pattern is found wherever the search starts (up to the end), so a loop searching for it never runs out of matches. */
  lemma FindFromEmpty(s: string, k: nat)
    requires k <= |s|
    ensures FindFrom(s, [], k) == Some(k)
  {
  }
}
