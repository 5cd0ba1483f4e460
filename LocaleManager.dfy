/**
 * The locale fallback list of the web runtime: a list of language tags built
 * from the host's system language by stripping subtags one at a time, with a
 * sticky default locale kept at its end.
 */
module Locale {
  import opened Wrappers
  import opened Sequences

  // ---------------------------------------------------------------------
  // Converting a POSIX locale name into a dash-separated language tag
  // ---------------------------------------------------------------------

  /** Index of the first `c` in `s`, or `|s|` when there is none (so that cutting there keeps all of `s`). */
  function FirstIndexOf(s: string, c: char): (r: nat)
    ensures r <= |s|
    ensures c !in s[..r]
    ensures r < |s| ==> s[r] == c
  {
    if s == [] then 0
    else if s[0] == c then 0
    else 1 + FirstIndexOf(s[1..], c)
  }

  /** Every `from` in `s` turned into `to`, everything else kept in place. */
  function ReplaceChar(s: string, from: char, to: char): (r: string)
    ensures |r| == |s|
    ensures forall i :: 0 <= i < |s| ==> r[i] == if s[i] == from then to else s[i]
  {
    if s == [] then []
    else [if s[0] == from then to else s[0]] + ReplaceChar(s[1..], from, to)
  }

  /**
   * `en_US.UTF-8` becomes `en-US`: the codepage suffix from the first `.` on
   * is cut off, then every `_` becomes `-`.
   */
  function ToBCP47LangTag(locale: string): (tag: string)
    ensures |tag| <= |locale|
    ensures '.' !in locale[..|tag|] && (|tag| < |locale| ==> locale[|tag|] == '.')
    ensures forall i :: 0 <= i < |tag| ==> tag[i] == if locale[i] == '_' then '-' else locale[i]
    ensures '_' !in tag && '.' !in tag
  {
    var cut := locale[..FirstIndexOf(locale, '.')];
    var tag := ReplaceChar(cut, '_', '-');
    assert forall i :: 0 <= i < |tag| ==> tag[i] != '.' && tag[i] != '_' by {
      forall i | 0 <= i < |tag| ensures tag[i] != '.' && tag[i] != '_' {
        assert cut[i] in cut;
      }
    }
    tag
  }

  // ---------------------------------------------------------------------
  // ASCII lower-casing
  // ---------------------------------------------------------------------

  predicate IsAsciiUpper(c: char)
  {
    'A' <= c <= 'Z'
  }

  /** `tolower` in the C locale: only `A`..`Z` change. */
  function LowerChar(c: char): (d: char)
    ensures IsAsciiUpper(c) ==> 'a' <= d <= 'z' && d as int == c as int + 32
    ensures !IsAsciiUpper(c) ==> d == c
  {
    if IsAsciiUpper(c) then (c as int - 'A' as int + 'a' as int) as char else c
  }

  function ToLowerAscii(s: string): (r: string)
    ensures |r| == |s|
  {
    if s == [] then [] else [LowerChar(s[0])] + ToLowerAscii(s[1..])
  }

  /** Lower-casing works character by character. */
  lemma {:induction false} ToLowerAsciiAt(s: string, i: nat)
    requires i < |s|
    ensures ToLowerAscii(s)[i] == LowerChar(s[i])
  {
    if i > 0 {
      ToLowerAsciiAt(s[1..], i - 1);
    }
  }

  predicate HasAsciiUpper(s: string)
  {
    exists i :: 0 <= i < |s| && IsAsciiUpper(s[i])
  }

  /** Lower-casing changes a tag exactly when the tag holds an ASCII upper-case letter. */
  lemma LowerChangesIffUpper(s: string)
    ensures ToLowerAscii(s) != s <==> HasAsciiUpper(s)
  {
  }

  // ---------------------------------------------------------------------
  // The fallback chain
  // ---------------------------------------------------------------------

  /** Index of the last `c` in `s`, or `None` (`npos`) when there is none. */
  function FindLastOf(s: string, c: char): (r: Option<nat>)
    ensures r.Some? ==> r.value < |s| && s[r.value] == c && c !in s[r.value + 1..]
    ensures r.None? ==> c !in s
  {
    if s == [] then None
    else if s[|s| - 1] == c then Some(|s| - 1)
    else
      var r := FindLastOf(s[..|s| - 1], c);
      assert s == s[..|s| - 1] + [s[|s| - 1]];
      r
  }

  /** `lang` with its last `-`-delimited subtag removed, when it has one. */
  function Parent(lang: string): (p: Option<string>)
    ensures p.Some? ==> |p.value| < |lang| && p.value < lang && lang[|p.value|] == '-'
    ensures p.Some? ==> '-' !in lang[|p.value| + 1..]
    ensures p.None? <==> '-' !in lang
  {
    match FindLastOf(lang, '-')
    case None => None
    case Some(position) => Some(lang[..position])
  }

  /**
   * The list one pass of the rebuilding loop produces from `lang`: the tag
   * itself, its lower-case copy when that differs, then the chain of its
   * parent tag.
   */
  function FallbackChain(lang: string): (r: seq<string>)
    ensures |r| > 0 && r[0] == lang
    decreases |lang|
  {
    var lower := ToLowerAscii(lang);
    [lang] + (if lower != lang then [lower] else [])
    + match Parent(lang)
      case None => []
      case Some(parent) => FallbackChain(parent)
  }

  /** The original-case tags the loop visits, from the full tag down to its first subtag. */
  function Stems(lang: string): (r: seq<string>)
    ensures |r| > 0 && r[0] == lang
    decreases |lang|
  {
    [lang] + match Parent(lang)
      case None => []
      case Some(parent) => Stems(parent)
  }

  /** Each stem followed by its lower-case copy when lower-casing changes it. */
  function WithLowerCopies(tags: seq<string>): seq<string>
  {
    if tags == [] then []
    else
      var lower := ToLowerAscii(tags[0]);
      [tags[0]] + (if lower != tags[0] then [lower] else []) + WithLowerCopies(tags[1..])
  }

  function CountChar(s: string, c: char): nat
  {
    if s == [] then 0 else (if s[0] == c then 1 else 0) + CountChar(s[1..], c)
  }

  /** The chain is the stems with their lower-case copies interleaved. */
  lemma {:induction false} ChainIsStemsWithLowerCopies(lang: string)
    ensures FallbackChain(lang) == WithLowerCopies(Stems(lang))
    decreases |lang|
  {
    var stems := Stems(lang);
    match Parent(lang)
    case None =>
      assert stems == [lang];
    case Some(parent) =>
      ChainIsStemsWithLowerCopies(parent);
      assert stems[1..] == Stems(parent);
  }

  lemma {:induction false} CountCharAppend(s: string, t: string, c: char)
    ensures CountChar(s + t, c) == CountChar(s, c) + CountChar(t, c)
  {
    if s == [] {
      assert s + t == t;
    } else {
      CountCharAppend(s[1..], t, c);
      assert (s + t)[1..] == s[1..] + t;
    }
  }

  lemma {:induction false} CountCharAbsent(s: string, c: char)
    requires c !in s
    ensures CountChar(s, c) == 0
  {
    if s != [] {
      CountCharAbsent(s[1..], c);
    }
  }

  /** One original-case tag per `-` in the full tag, plus the full tag itself. */
  lemma {:induction false} StemCount(lang: string)
    ensures |Stems(lang)| == CountChar(lang, '-') + 1
    decreases |lang|
  {
    match Parent(lang)
    case None =>
      CountCharAbsent(lang, '-');
    case Some(parent) =>
      StemCount(parent);
      var rest := lang[|parent| + 1..];
      assert lang == parent + ['-'] + rest;
      CountCharAppend(parent + ['-'], rest, '-');
      CountCharAppend(parent, ['-'], '-');
      CountCharAbsent(rest, '-');
  }

  /** Each later stem is its predecessor cut at its last `-`, hence a strict prefix of it. */
  lemma {:induction false} StemsShrink(lang: string, i: nat)
    requires 0 < i < |Stems(lang)|
    ensures Parent(Stems(lang)[i - 1]) == Some(Stems(lang)[i])
    ensures Stems(lang)[i] < Stems(lang)[i - 1]
    decreases |lang|
  {
    match Parent(lang)
    case None =>
    case Some(parent) =>
      assert Stems(lang)[1..] == Stems(parent);
      if i > 1 {
        StemsShrink(parent, i - 1);
      }
  }

  /** No two neighbours in a list are equal. */
  predicate NoStutter(xs: seq<string>)
  {
    forall i :: 0 < i < |xs| ==> xs[i - 1] != xs[i]
  }

  lemma NoStutterAppend(a: seq<string>, b: seq<string>)
    requires NoStutter(a) && NoStutter(b)
    requires a != [] && b != [] ==> a[|a| - 1] != b[0]
    ensures NoStutter(a + b)
  {
  }

  /**
   * The chain of `lang` starts with `lang`, holds no tag longer than `lang`,
   * and never repeats a tag immediately.
   */
  lemma {:induction false} ChainShape(lang: string)
    ensures |FallbackChain(lang)| > 0 && FallbackChain(lang)[0] == lang
    ensures forall t :: t in FallbackChain(lang) ==> |t| <= |lang|
    ensures NoStutter(FallbackChain(lang))
    decreases |lang|
  {
    var lower := ToLowerAscii(lang);
    var head := [lang] + (if lower != lang then [lower] else []);
    assert NoStutter(head);
    match Parent(lang)
    case None =>
      assert FallbackChain(lang) == head;
    case Some(parent) =>
      ChainShape(parent);
      var tail := FallbackChain(parent);
      assert FallbackChain(lang) == head + tail;
      assert |head[|head| - 1]| == |lang| && |tail[0]| < |lang|;
      NoStutterAppend(head, tail);
  }

  /**
   * A lower-case copy follows the full tag exactly when the tag has an ASCII
   * upper-case letter (the next original-case tag is strictly shorter, so it
   * can never pass for that copy).
   */
  lemma LowerCopyFollowsIffUpper(lang: string)
    ensures var chain := FallbackChain(lang);
      (|chain| > 1 && chain[1] == ToLowerAscii(lang)) <==> HasAsciiUpper(lang)
  {
    LowerChangesIffUpper(lang);
    match Parent(lang)
    case None =>
    case Some(parent) =>
      ChainShape(parent);
  }

  /** The chain ends with the last stem (a tag without `-`) or with its lower-case copy. */
  lemma {:induction false} ChainEnd(lang: string)
    ensures var chain, stems := FallbackChain(lang), Stems(lang);
      var last := stems[|stems| - 1];
      '-' !in last && (chain[|chain| - 1] == last || chain[|chain| - 1] == ToLowerAscii(last))
    decreases |lang|
  {
    match Parent(lang)
    case None =>
    case Some(parent) =>
      ChainEnd(parent);
      assert Stems(lang)[1..] == Stems(parent);
      ChainShape(parent);
  }

  /**
   * One pass of the rebuilding loop: after pushing `lang` and its lower-case
   * copy, the list built so far followed by the chain of the parent tag (or
   * nothing, when there is no parent) is the chain of the full tag.
   */
  lemma ChainStep(before: seq<string>, lang: string, tag: string, now: seq<string>)
    requires before + FallbackChain(lang) == FallbackChain(tag)
    requires now == before + [lang]
      + (if ToLowerAscii(lang) != lang then [ToLowerAscii(lang)] else [])
    ensures Parent(lang).None? ==> now == FallbackChain(tag)
    ensures Parent(lang).Some? ==> now + FallbackChain(Parent(lang).value) == FallbackChain(tag)
  {
    var lower := ToLowerAscii(lang);
    var head := [lang] + (if lower != lang then [lower] else []);
    AppendAssoc(before, [lang], if lower != lang then [lower] else []);
    assert now == before + head;
    match Parent(lang)
    case None =>
      assert FallbackChain(lang) == head;
    case Some(parent) =>
      assert FallbackChain(lang) == head + FallbackChain(parent);
      AppendAssoc(before, head, FallbackChain(parent));
  }

  // ---------------------------------------------------------------------
  // Setting the default locale
  // ---------------------------------------------------------------------

  /**
   * The list after the default changes from `previous` to `locale`: the old
   * default is dropped when it is non-empty and is the last element, then a
   * non-empty new default is appended.
   */
  function WithDefault(locales: seq<string>, previous: string, locale: string): (r: seq<string>)
    ensures locale != "" ==> |r| > 0 && r[|r| - 1] == locale
    ensures locale == "" ==> r <= locales
    ensures |locales| - 1 <= |r| <= |locales| + 1
  {
    var kept :=
      if previous != "" && |locales| > 0 && locales[|locales| - 1] == previous
      then locales[..|locales| - 1] else locales;
    kept + if locale != "" then [locale] else []
  }

  /** What setting the default does to the list: at most the last element goes, the rest keeps its order. */
  lemma WithDefaultShape(locales: seq<string>, previous: string, locale: string)
    ensures var r := WithDefault(locales, previous, locale);
      var keptLen := if locale != "" then |r| - 1 else |r|;
      && 0 <= keptLen
      && r[..keptLen] <= locales
      && (keptLen < |locales| <==> previous != "" && |locales| > 0 && locales[|locales| - 1] == previous)
      && |locales| - 1 <= keptLen
      && (locale != "" ==> r[|r| - 1] == locale)
  {
  }

  /** Setting the same default twice is the same as setting it once. */
  lemma WithDefaultIdempotent(locales: seq<string>, previous: string, locale: string)
    ensures WithDefault(WithDefault(locales, previous, locale), locale, locale)
         == WithDefault(locales, previous, locale)
  {
  }

  /** Clearing a default that is last and setting it again gives back the list. */
  lemma WithDefaultClearThenRestore(locales: seq<string>, previous: string)
    requires previous != "" && |locales| > 0 && locales[|locales| - 1] == previous
    ensures WithDefault(WithDefault(locales, previous, ""), "", previous) == locales
  {
  }

  // ---------------------------------------------------------------------
  // The manager
  // ---------------------------------------------------------------------

  class LocaleManager {
    var systemLocales: seq<string>
    var defaultLocale: string

    /** A non-empty default is always the last entry of the list. */
    ghost predicate Valid()
      reads this
    {
      defaultLocale != "" ==>
        |systemLocales| > 0 && systemLocales[|systemLocales| - 1] == defaultLocale
    }

    /** Builds the list from the host's language; `host` is `None` when the host query fails. */
    constructor (host: Option<string>)
      ensures Valid()
      ensures defaultLocale == ""
      ensures systemLocales ==
        if host.Some? && ToBCP47LangTag(host.value) != ""
        then FallbackChain(ToBCP47LangTag(host.value)) else []
    {
      systemLocales := [];
      defaultLocale := "";
      new;
      UpdateSystemLocale(host);
    }

    method SetDefaultLocale(locale: string)
      modifies this
      ensures Valid()
      ensures defaultLocale == locale
      ensures systemLocales == WithDefault(old(systemLocales), old(defaultLocale), locale)
    {
      if defaultLocale != "" && |systemLocales| > 0
         && systemLocales[|systemLocales| - 1] == defaultLocale {
        systemLocales := systemLocales[..|systemLocales| - 1];
      }
      defaultLocale := locale;
      if defaultLocale != "" {
        systemLocales := systemLocales + [locale];
      }
    }

    /**
     * Rebuilds the list from the host's language. When the host supplies
     * nothing, or the converted tag is empty, nothing changes.
     */
    method UpdateSystemLocale(host: Option<string>)
      modifies this
      ensures defaultLocale == old(defaultLocale)
      ensures host.None? || ToBCP47LangTag(host.value) == "" ==>
        systemLocales == old(systemLocales)
      ensures host.Some? && ToBCP47LangTag(host.value) != "" ==>
        systemLocales == FallbackChain(ToBCP47LangTag(host.value))
                         + if defaultLocale != "" then [defaultLocale] else []
      ensures host.Some? && ToBCP47LangTag(host.value) != "" ==> Valid()
      ensures old(Valid()) ==> Valid()
    {
      if host.None? {
        return;
      }
      var lang := ToBCP47LangTag(host.value);
      if |lang| == 0 {
        return;
      }
      ghost var tag := lang;
      systemLocales := [];
      while true
        invariant defaultLocale == old(defaultLocale)
        invariant systemLocales + FallbackChain(lang) == FallbackChain(tag)
        decreases |lang|
      {
        ghost var before := systemLocales;
        systemLocales := systemLocales + [lang];
        var lower := ToLowerAscii(lang);
        if lower != lang {
          systemLocales := systemLocales + [lower];
        }
        var position := FindLastOf(lang, '-');
        ChainStep(before, lang, tag, systemLocales);
        if position.None? {
          break;
        }
        var parent := lang[..position.value];
        lang := parent;
      }
      if defaultLocale != "" {
        systemLocales := systemLocales + [defaultLocale];
      }
    }
  }

  /** `en_US.UTF-8` with no default gives `en-US, en-us, en`; a default `fr-FR` is then appended. */
  method WorkedExample() returns (rebuilt: seq<string>, withDefault: seq<string>)
    ensures rebuilt == ["en-US", "en-us", "en"]
    ensures withDefault == ["en-US", "en-us", "en", "fr-FR"]
  {
    var host := Some("en_US.UTF-8");
    ExampleChain();
    assert ToBCP47LangTag(host.value) == "en-US";
    var manager := new LocaleManager(host);
    rebuilt := manager.systemLocales;
    ExampleDefault();
    manager.SetDefaultLocale("fr-FR");
    withDefault := manager.systemLocales;
  }

  lemma ExampleDefault()
    ensures WithDefault(["en-US", "en-us", "en"], "", "fr-FR") == ["en-US", "en-us", "en", "fr-FR"]
  {
  }

  lemma ExampleChain()
    ensures ToBCP47LangTag("en_US.UTF-8") == "en-US"
    ensures FallbackChain("en-US") == ["en-US", "en-us", "en"]
  {
    ExampleTag();
    ExampleLower();
    ExampleParent();
    assert FallbackChain("en") == ["en"];
    ExampleUnfold("en-US", "en-us", "en");
  }

  lemma ExampleUnfold(lang: string, lower: string, parent: string)
    requires ToLowerAscii(lang) == lower && lower != lang
    requires Parent(lang) == Some(parent)
    ensures FallbackChain(lang) == [lang, lower] + FallbackChain(parent)
  {
  }

  lemma ExampleTag()
    ensures ToBCP47LangTag("en_US.UTF-8") == "en-US"
  {
  }

  lemma ExampleLower()
    ensures ToLowerAscii("en-US") == "en-us"
    ensures ToLowerAscii("en") == "en"
  {
    assert LowerChar('U') == 'u' && LowerChar('S') == 's';
    assert ToLowerAscii("en-US") == "en-us";
    assert ToLowerAscii("en") == "en";
  }

  lemma ExampleParent()
    ensures Parent("en-US") == Some("en")
    ensures Parent("en") == None
  {
    var r := FindLastOf("en-US", '-');
    assert "en-US"[2] == '-';
    assert r.Some? && r.value == 2;
    assert "en-US"[..2] == "en";
    assert '-' !in "en";
  }
}
