/**
 The raw-type check: a variable's spelled type must be one of the wrapper
 templates (`Mut<T>`, `Ref<T>`, ...), optionally namespace-qualified, unless
 the declaration is exempt. Three copies of the check exist in the validator
 and differ in the namespace prefixes they strip, in the keywords they accept,
 in the exemptions they apply and in how they print a violation; a `Variant`
 captures the first two, and each copy's filter chain and output is its own
 function.
 */
module RawType {
  import opened Common
  import CfgAst

  /** The two namespace prefixes tried in order (only the first that matches is stripped) and the accepted wrapper names. */
  datatype Variant = Variant(firstPrefix: string, secondPrefix: string, keywords: set<string>)

  const WRAPPERS: set<string> := {"Mut", "Ref", "MutRef", "ForwardRef"}

  /** `raw_type_police.cpp`. */
  const POLICE: Variant := Variant("auxid::", "au::", WRAPPERS)

  /** `Matchers/RawTypeMatcher.cpp`. */
  const MATCHER: Variant := Variant("Auxid::", "au::", WRAPPERS)

  /** `Validator.cpp`, which also accepts `Const`. */
  const VALIDATOR: Variant := Variant("Auxid::", "ox::", WRAPPERS + {"Const"})

  /** The characters of `[A-Za-z0-9_]`. */
  predicate IsIdentChar(c: char) {
    ('a' <= c <= 'z') || ('A' <= c <= 'Z') || ('0' <= c <= '9') || c == '_'
  }

  /** The default character set of `StringRef::trim()`. */
  predicate IsTrimSpace(c: char) {
    c == ' ' || c == '\t' || c == '\n' || c == '\U{0B}' || c == '\U{0C}' || c == '\r'
  }

  /** The set searched for the `<`: note it lacks the vertical tab and form feed that `trim` removes. */
  predicate IsGapSpace(c: char) {
    c == ' ' || c == '\t' || c == '\n' || c == '\r'
  }

  predicate AllIdent(s: string) {
    forall i :: 0 <= i < |s| ==> IsIdentChar(s[i])
  }

  /** `starts_with` followed by `consume_front`: the first prefix, else the second, else nothing. */
  function StripPrefix(v: Variant, ty: string): (r: string)
    ensures StartsWith(ty, v.firstPrefix) ==> r == ty[|v.firstPrefix|..]
    ensures !StartsWith(ty, v.firstPrefix) && StartsWith(ty, v.secondPrefix) ==> r == ty[|v.secondPrefix|..]
    ensures !StartsWith(ty, v.firstPrefix) && !StartsWith(ty, v.secondPrefix) ==> r == ty
  {
    if StartsWith(ty, v.firstPrefix) then ty[|v.firstPrefix|..]
    else if StartsWith(ty, v.secondPrefix) then ty[|v.secondPrefix|..]
    else ty
  }

  function TrimLeft(s: string): (r: string)
    ensures |r| <= |s| && r == s[|s| - |r|..]
    ensures |r| > 0 ==> !IsTrimSpace(r[0])
    ensures forall i :: 0 <= i < |s| - |r| ==> IsTrimSpace(s[i])
    decreases |s|
  {
    if |s| > 0 && IsTrimSpace(s[0]) then TrimLeft(s[1..]) else s
  }

  function TrimRight(s: string): (r: string)
    ensures |r| <= |s| && r == s[..|r|]
    ensures |r| > 0 ==> !IsTrimSpace(r[|r| - 1])
    ensures forall i :: |r| <= i < |s| ==> IsTrimSpace(s[i])
    decreases |s|
  {
    if |s| > 0 && IsTrimSpace(s[|s| - 1]) then TrimRight(s[..|s| - 1]) else s
  }

  /** `StringRef::trim()`: drop the leading, then the trailing, whitespace. */
  function Trim(s: string): (r: string)
    ensures |r| > 0 ==> !IsTrimSpace(r[0]) && !IsTrimSpace(r[|r| - 1])
    ensures Occurs(s, r)
  {
    var l := TrimLeft(s);
    var r := TrimRight(l);
    assert OccursAt(s, r, |s| - |l|);
    r
  }

  /** `find_first_not_of` the identifier characters, with "not found" as `|s|`. */
  function WordEnd(s: string): (n: nat)
    ensures n <= |s|
    ensures AllIdent(s[..n])
    ensures n < |s| ==> !IsIdentChar(s[n])
    decreases |s|
  {
    if |s| > 0 && IsIdentChar(s[0]) then
      var n := 1 + WordEnd(s[1..]);
      assert s[..n] == [s[0]] + s[1..][..n - 1];
      n
    else 0
  }

  /** `find_first_not_of(" \t\n\r")`, with "not found" as `|s|`. */
  function GapEnd(s: string): (n: nat)
    ensures n <= |s|
    ensures forall i :: 0 <= i < n ==> IsGapSpace(s[i])
    ensures n < |s| ==> !IsGapSpace(s[n])
    decreases |s|
  {
    if |s| > 0 && IsGapSpace(s[0]) then 1 + GapEnd(s[1..]) else 0
  }

  /** What `is_type_safe` returns and what it leaves in the caller's view (the parameter is a mutable reference). */
  datatype Verdict = Verdict(safe: bool, view: string)

  /** `is_type_safe` of one variant: strip one prefix, trim, then judge what is left. */
  function IsTypeSafe(v: Variant, ty: string): (r: Verdict)
    ensures r.view == Trim(StripPrefix(v, ty))
    ensures r.safe <==> SafeSpelling(v.keywords, r.view)
  {
    var view := Trim(StripPrefix(v, ty));
    SafeViewIffSpelling(v.keywords, view);
    Verdict(IsSafeView(v.keywords, view), view)
  }

  /**
   The judgement on the trimmed view: the maximal leading identifier run must
   be non-empty, must not be all of the text, must be a keyword, and the first
   character after it that is not in `" \t\n\r"` must be `<`.
   */
  function IsSafeView(keywords: set<string>, view: string): bool {
    var wordEnd := WordEnd(view);
    if wordEnd == |view| || wordEnd == 0 then false
    else
      var name := view[..wordEnd];
      var suffix := view[wordEnd..];
      if name !in keywords then false
      else
        var bracket := GapEnd(suffix);
        bracket < |suffix| && suffix[bracket] == '<'
  }

  /**
   The declarative reading: the view is a keyword that is a non-empty
   identifier, then only `" \t\n\r"` characters, then `<` (anything may
   follow).
   */
  ghost predicate SafeSpelling(keywords: set<string>, view: string) {
    exists k, n :: SpelledAt(keywords, view, k, n)
  }

  /** The keyword `k` opens the view and the `<` sits at index `n`, with only gap characters between. */
  predicate SpelledAt(keywords: set<string>, view: string, k: string, n: int) {
    k in keywords && |k| > 0 && AllIdent(k) && StartsWith(view, k) && |k| <= n < |view| && view[n] == '<' && AllGap(view, |k|, n)
  }

  predicate AllGap(s: string, from: int, to: int)
    requires 0 <= from <= to <= |s|
  {
    forall i :: from <= i < to ==> IsGapSpace(s[i])
  }

  /** Every keyword is a non-empty identifier. */
  predicate WellFormedKeywords(keywords: set<string>) {
    forall k :: k in keywords ==> |k| > 0 && AllIdent(k)
  }

  lemma VariantsWellFormed()
    ensures WellFormedKeywords(POLICE.keywords)
    ensures WellFormedKeywords(MATCHER.keywords)
    ensures WellFormedKeywords(VALIDATOR.keywords)
  {
  }

  /**
   `is_type_safe` holds iff the stripped and trimmed text is an accepted
   keyword, optionally followed by whitespace, followed by `<`.
   */
  lemma {:induction false} IsTypeSafeIffSpelling(v: Variant, ty: string)
    ensures IsTypeSafe(v, ty).safe <==> SafeSpelling(v.keywords, IsTypeSafe(v, ty).view)
  {
    SafeViewIffSpelling(v.keywords, IsTypeSafe(v, ty).view);
  }

  lemma {:induction false} SafeViewIffSpelling(keywords: set<string>, view: string)
    ensures IsSafeView(keywords, view) <==> SafeSpelling(keywords, view)
  {
    if IsSafeView(keywords, view) {
      SafeViewGivesSpelling(keywords, view);
    }
    if SafeSpelling(keywords, view) {
      var k, n :| SpelledAt(keywords, view, k, n);
      SpellingGivesSafeView(keywords, view, k, n);
    }
  }

  lemma {:induction false} SafeViewGivesSpelling(keywords: set<string>, view: string)
    requires IsSafeView(keywords, view)
    ensures SafeSpelling(keywords, view)
  {
    var wordEnd := WordEnd(view);
    var k := view[..wordEnd];
    var suffix := view[wordEnd..];
    var g := GapEnd(suffix);
    var n := wordEnd + g;
    assert view[n] == suffix[g];
    assert forall i :: wordEnd <= i < n ==> view[i] == suffix[i - wordEnd];
    assert StartsWith(view, k);
    assert AllGap(view, |k|, n);
    assert SpelledAt(keywords, view, k, n);
  }

  lemma {:induction false} SpellingGivesSafeView(keywords: set<string>, view: string, k: string, n: int)
    requires k in keywords && |k| > 0 && AllIdent(k) && StartsWith(view, k) && |k| <= n < |view| && view[n] == '<' && AllGap(view, |k|, n)
    ensures IsSafeView(keywords, view)
  {
    // The keyword is a maximal identifier run: what follows it is whitespace or `<`.
    assert IsGapSpace(view[|k|]) || view[|k|] == '<';
    WordEndOfKeyword(view, k);
    var suffix := view[|k|..];
    assert view[..|k|] == k;
    assert forall i :: 0 <= i < n - |k| ==> suffix[i] == view[i + |k|];
    GapEndReaches(suffix, n - |k|);
  }

  /** `WordEnd` stops exactly after an identifier prefix that is followed by a non-identifier character. */
  lemma {:induction false} WordEndOfKeyword(s: string, k: string)
    requires StartsWith(s, k) && AllIdent(k) && |k| < |s| && !IsIdentChar(s[|k|])
    ensures WordEnd(s) == |k|
    decreases |k|
  {
    if |k| > 0 {
      assert s[1..][..|k| - 1] == k[1..];
      WordEndOfKeyword(s[1..], k[1..]);
    }
  }

  /** `GapEnd` reaches a non-gap character that only gap characters precede. */
  lemma {:induction false} GapEndReaches(s: string, n: nat)
    requires n < |s| && !IsGapSpace(s[n])
    requires forall i :: 0 <= i < n ==> IsGapSpace(s[i])
    ensures GapEnd(s) == n
    decreases n
  {
    if n > 0 {
      GapEndReaches(s[1..], n - 1);
    }
  }

  /**
   An all-identifier text, or one that starts with a non-identifier character,
   is never safe, whatever the keywords (and so whatever the variant).
   */
  lemma {:induction false} NoWordIsUnsafe(keywords: set<string>, view: string)
    requires AllIdent(view) || (|view| > 0 && !IsIdentChar(view[0]))
    ensures !IsSafeView(keywords, view)
  {
    if AllIdent(view) {
      AllIdentWordEnd(view);
    }
  }

  lemma {:induction false} AllIdentWordEnd(s: string)
    requires AllIdent(s)
    ensures WordEnd(s) == |s|
    decreases |s|
  {
    if |s| > 0 {
      AllIdentWordEnd(s[1..]);
    }
  }

  /** A text without surrounding whitespace is its own trim. */
  lemma {:induction false} TrimUnpadded(s: string)
    requires |s| > 0 && !IsTrimSpace(s[0]) && !IsTrimSpace(s[|s| - 1])
    ensures Trim(s) == s
  {
  }

  /** A keyword directly followed by `<` is safe whatever comes after. */
  lemma {:induction false} KeywordThenBracketIsSafe(keywords: set<string>, k: string, rest: string)
    requires WellFormedKeywords(keywords) && k in keywords
    ensures IsSafeView(keywords, k + "<" + rest)
  {
    var view := k + "<" + rest;
    assert view[|k|] == '<';
    assert StartsWith(view, k);
    SpellingGivesSafeView(keywords, view, k, |k|);
  }

  /** A leading identifier run that is not a keyword makes the view unsafe, whatever follows it. */
  lemma {:induction false} NonKeywordIsUnsafe(keywords: set<string>, view: string, w: string)
    requires StartsWith(view, w) && AllIdent(w) && |w| < |view| && !IsIdentChar(view[|w|]) && w !in keywords
    ensures !IsSafeView(keywords, view)
  {
    WordEndOfKeyword(view, w);
    assert view[..|w|] == w;
  }

  /** Glue for the worked examples: the verdict once the stripped and trimmed text is known. */
  lemma VerdictOf(v: Variant, ty: string, stripped: string, view: string)
    requires StripPrefix(v, ty) == stripped && Trim(stripped) == view
    ensures IsTypeSafe(v, ty) == Verdict(IsSafeView(v.keywords, view), view)
  {
  }

  /** Whitespace is trimmed only after the prefix test, so leading whitespace hides a prefix and the text is unsafe. */
  lemma PaddingHidesPrefix()
    ensures !IsTypeSafe(POLICE, " au::Mut<T>").safe
  {
    PaddedNotStripped();
    PaddedTrimmed();
    AuWordUnsafe();
    VerdictOf(POLICE, " au::Mut<T>", " au::Mut<T>", "au::Mut<T>");
  }

  /** Without the padding the second prefix is stripped and the text is safe. */
  lemma SecondPrefixStripped()
    ensures IsTypeSafe(POLICE, "au::Mut<T>").safe
  {
    AuStripped();
    TrimUnpadded("Mut<T>");
    KeywordViewsSafe();
    VerdictOf(POLICE, "au::Mut<T>", "Mut<T>", "Mut<T>");
  }

  lemma PaddedNotStripped()
    ensures StripPrefix(POLICE, " au::Mut<T>") == " au::Mut<T>"
  {
    NotStartsWith(" au::Mut<T>", "auxid::", 0);
    NotStartsWith(" au::Mut<T>", "au::", 0);
  }

  lemma PaddedTrimmed()
    ensures Trim(" au::Mut<T>") == "au::Mut<T>"
  {
    assert TrimLeft(" au::Mut<T>") == "au::Mut<T>";
    TrimUnpadded("au::Mut<T>");
  }

  lemma AuWordUnsafe()
    ensures !IsSafeView(POLICE.keywords, "au::Mut<T>")
  {
    NonKeywordIsUnsafe(POLICE.keywords, "au::Mut<T>", "au");
  }

  lemma AuStripped()
    ensures StripPrefix(POLICE, "au::Mut<T>") == "Mut<T>"
  {
    NotStartsWith("au::Mut<T>", "auxid::", 2);
    assert StartsWith("au::Mut<T>", "au::");
  }

  /** The two stripped spellings the examples use are safe views: a keyword, then `<`. */
  lemma KeywordViewsSafe()
    ensures IsSafeView(POLICE.keywords, "Mut<T>")
    ensures IsSafeView(POLICE.keywords, "Ref<int>")
  {
    WrapperViewSafe("Mut", "T>");
    assert "Mut" + "<" + "T>" == "Mut<T>";
    WrapperViewSafe("Ref", "int>");
    assert "Ref" + "<" + "int>" == "Ref<int>";
  }

  /** A wrapper name directly followed by `<` is a safe view for the police's keyword list. */
  lemma WrapperViewSafe(name: string, arg: string)
    requires name in WRAPPERS
    ensures IsSafeView(POLICE.keywords, name + "<" + arg)
  {
    VariantsWellFormed();
    KeywordThenBracketIsSafe(POLICE.keywords, name, arg);
  }

  /** The matcher strips `Auxid::`, not `auxid::`, so the same spelling is safe for one copy and not the other. */
  lemma PrefixCaseMatters()
    ensures IsTypeSafe(POLICE, "auxid::Ref<int>").safe
    ensures !IsTypeSafe(MATCHER, "auxid::Ref<int>").safe
  {
    PoliceStripsLower();
    MatcherKeepsLower();
  }

  lemma PoliceStripsLower()
    ensures IsTypeSafe(POLICE, "auxid::Ref<int>").safe
  {
    LowerPrefixStripped();
    TrimUnpadded("Ref<int>");
    KeywordViewsSafe();
    VerdictOf(POLICE, "auxid::Ref<int>", "Ref<int>", "Ref<int>");
  }

  lemma MatcherKeepsLower()
    ensures !IsTypeSafe(MATCHER, "auxid::Ref<int>").safe
  {
    LowerPrefixKept();
    TrimUnpadded("auxid::Ref<int>");
    AuxidWordUnsafe();
    VerdictOf(MATCHER, "auxid::Ref<int>", "auxid::Ref<int>", "auxid::Ref<int>");
  }

  lemma LowerPrefixStripped()
    ensures StripPrefix(POLICE, "auxid::Ref<int>") == "Ref<int>"
  {
    assert StartsWith("auxid::Ref<int>", "auxid::");
  }

  lemma LowerPrefixKept()
    ensures StripPrefix(MATCHER, "auxid::Ref<int>") == "auxid::Ref<int>"
  {
    NotStartsWith("auxid::Ref<int>", "Auxid::", 0);
    NotStartsWith("auxid::Ref<int>", "au::", 2);
  }

  lemma AuxidWordUnsafe()
    ensures !IsSafeView(MATCHER.keywords, "auxid::Ref<int>")
  {
    NonKeywordIsUnsafe(MATCHER.keywords, "auxid::Ref<int>", "auxid");
  }

  /** Only the validator accepts `Const`. */
  lemma ConstOnlyInValidator()
    ensures IsTypeSafe(VALIDATOR, "Const<int>").safe
    ensures !IsTypeSafe(POLICE, "Const<int>").safe
  {
    ConstNotStripped();
    TrimUnpadded("Const<int>");
    ConstVerdicts();
    VerdictOf(VALIDATOR, "Const<int>", "Const<int>", "Const<int>");
    VerdictOf(POLICE, "Const<int>", "Const<int>", "Const<int>");
  }

  lemma ConstNotStripped()
    ensures StripPrefix(VALIDATOR, "Const<int>") == "Const<int>"
    ensures StripPrefix(POLICE, "Const<int>") == "Const<int>"
  {
    NotStartsWith("Const<int>", "Auxid::", 0);
    NotStartsWith("Const<int>", "ox::", 0);
    NotStartsWith("Const<int>", "auxid::", 0);
    NotStartsWith("Const<int>", "au::", 0);
  }

  lemma ConstVerdicts()
    ensures IsSafeView(VALIDATOR.keywords, "Const<int>")
    ensures !IsSafeView(POLICE.keywords, "Const<int>")
  {
    ConstSafeForValidator();
    ConstUnsafeForPolice();
  }

  lemma ConstSafeForValidator()
    ensures IsSafeView(VALIDATOR.keywords, "Const<int>")
  {
    VariantsWellFormed();
    KeywordThenBracketIsSafe(VALIDATOR.keywords, "Const", "int>");
    assert "Const" + "<" + "int>" == "Const<int>";
  }

  lemma ConstUnsafeForPolice()
    ensures !IsSafeView(POLICE.keywords, "Const<int>")
  {
    NonKeywordIsUnsafe(POLICE.keywords, "Const<int>", "Const");
  }

  // ---------------------------------------------------------------------------
  // The declaration being checked
  // ---------------------------------------------------------------------------

  /** A type location: an array declarator around an element, or the spelled type (`Lexer::getSourceText` of its range). */
  datatype TypeLoc = ArrayOf(element: TypeLoc) | Spelled(text: string)

  /** The `while (ArrayTypeLoc ...)` loop: descend to the innermost element type. */
  function Innermost(t: TypeLoc): (text: string)
    ensures t.Spelled? ==> text == t.text
    ensures t.ArrayOf? ==> text == Innermost(t.element)
    decreases t
  {
    match t
    case ArrayOf(e) => Innermost(e)
    case Spelled(s) => s
  }

  /** What the frontend answers about a variable declaration; the analyses treat each field as given. */
  datatype VarInfo = VarInfo(
    name: string,
    dependentContext: bool,
    dependentType: bool,
    isConstexpr: bool,
    constQualified: bool,
    isReference: bool,
    templateSpecialisation: bool,
    /** The variable is a function parameter. */
    isParm: bool,
    cheapToCopy: bool,
    /** The parameter belongs to a deleted function. */
    inDeletedFunction: bool,
    /** Declared `auto` and initialised by a call to `mut(...)`. */
    isAuto: bool,
    mutInitializer: bool,
    /** `getTypeSourceInfo()`, `None` when it is null. */
    typeLoc: CfgAst.Option<TypeLoc>,
    /** `tsi->getType().isConstQualified() || isLocalConstQualified()`. */
    sourceConst: bool,
    inSystemHeader: bool,
    inMainFile: bool,
    locValid: bool,
    line: nat,
    column: nat)

  /** `raw_type_police.cpp`'s two messages. */
  datatype PoliceReport = AutoViolation(name: string) | WrapperViolation(name: string, typeName: string)

  /** The exemptions `RawTypePolice::police` applies before it looks at the spelled type. */
  predicate PoliceExempt(d: VarInfo) {
    || d.dependentContext || d.dependentType || d.isConstexpr || d.constQualified || d.isReference
    || d.templateSpecialisation
    || (d.isParm && (d.cheapToCopy || d.inDeletedFunction))
    || (d.isAuto && d.mutInitializer)
  }

  /** `RawTypePolice::police`; `None` for a declaration that is not a `VarDecl`. */
  function Police(decl: CfgAst.Option<VarInfo>): (r: CfgAst.Option<PoliceReport>)
    ensures r.Some? ==> decl.Some? && !PoliceExempt(decl.value) && decl.value.typeLoc.Some?
    ensures r.Some? ==> (Innermost(decl.value.typeLoc.value) != []
      && !IsTypeSafe(POLICE, Innermost(decl.value.typeLoc.value)).safe)
  {
    if decl.None? then CfgAst.None
    else
      var d := decl.value;
      if d.dependentContext || d.dependentType || d.isConstexpr || d.constQualified || d.isReference
         || d.templateSpecialisation then CfgAst.None
      else if d.isParm && d.cheapToCopy then CfgAst.None
      else if d.isParm && d.inDeletedFunction then CfgAst.None
      else if d.isAuto && d.mutInitializer then CfgAst.None
      else if d.typeLoc.None? then CfgAst.None
      else
        var text := Innermost(d.typeLoc.value);
        if text == [] then CfgAst.None
        else
          var verdict := IsTypeSafe(POLICE, text);
          if verdict.safe then CfgAst.None
          else if verdict.view == "auto" && !d.sourceConst then CfgAst.Some(AutoViolation(d.name))
          else CfgAst.Some(WrapperViolation(d.name, verdict.view))
  }

  /** The report text; the variable's name is substituted for `{}`. */
  function PoliceMessage(r: PoliceReport): string {
    match r
    case AutoViolation(name) =>
      "Variable '" + name + "' has unsafe type 'auto'. Must either be passed through `mut()` or be marked `const auto`."
    case WrapperViolation(name, typeName) =>
      "Variable '" + name + "' has unsafe type '" + typeName
        + "'. Must either be marked `const` or be wrapped in `Mut<T>`, `Ref<T>`, `MutRef<T>`, or `ForwardRef<T>`."
  }

  /**
   A `VarDecl` is reported iff it is not exempt, has type source info whose
   innermost spelled text is non-empty, and that text is not safe; the auto
   wording is used iff the stripped text is exactly `auto` and the type is
   not const, and otherwise the report carries the stripped, trimmed text.
   */
  lemma {:induction false} PoliceReportsIffUnsafe(d: VarInfo)
    ensures Police(CfgAst.Some(d)).Some? <==>
      !PoliceExempt(d) && d.typeLoc.Some? && Innermost(d.typeLoc.value) != []
      && !IsTypeSafe(POLICE, Innermost(d.typeLoc.value)).safe
    ensures Police(CfgAst.Some(d)).Some? ==>
      var view := IsTypeSafe(POLICE, Innermost(d.typeLoc.value)).view;
      Police(CfgAst.Some(d)) == CfgAst.Some(
        if view == "auto" && !d.sourceConst then AutoViolation(d.name) else WrapperViolation(d.name, view))
  {
  }

  /** Each exemption on its own silences the check, whatever the spelled type. */
  lemma {:induction false} PoliceExemptions(d: VarInfo)
    requires d.dependentContext || d.dependentType || d.isConstexpr || d.constQualified || d.isReference
      || d.templateSpecialisation || (d.isParm && d.cheapToCopy) || (d.isParm && d.inDeletedFunction)
      || (d.isAuto && d.mutInitializer) || d.typeLoc.None?
    ensures Police(CfgAst.Some(d)).None?
  {
  }

  /** An array declaration is judged by its innermost element type: `int x[2][3]` is judged as `int`. */
  lemma {:induction false} ArraysUseElementType(d: VarInfo, element: TypeLoc)
    requires d.typeLoc == CfgAst.Some(ArrayOf(ArrayOf(element)))
    ensures Police(CfgAst.Some(d)) == Police(CfgAst.Some(d.(typeLoc := CfgAst.Some(element))))
  {
  }

  // ---------------------------------------------------------------------------
  // Matchers/RawTypeMatcher.cpp
  // ---------------------------------------------------------------------------

  /** The exemptions of the matcher callback: location filters, no reference or cheap-to-copy exemption. */
  predicate MatcherExempt(d: VarInfo) {
    || d.inSystemHeader || !d.inMainFile || !d.locValid
    || d.dependentContext || d.dependentType || d.isConstexpr || d.constQualified || d.templateSpecialisation
    || (d.isParm && d.inDeletedFunction)
    || (d.isAuto && d.mutInitializer)
  }

  /**
   The matcher callback's decision: the stripped, trimmed type text to print,
   or `None` when nothing is printed.
   */
  function MatcherFinding(decl: CfgAst.Option<VarInfo>): (r: CfgAst.Option<string>)
    ensures r.Some? <==> (decl.Some? && !MatcherExempt(decl.value) && decl.value.typeLoc.Some?
      && Innermost(decl.value.typeLoc.value) != [] && !IsTypeSafe(MATCHER, Innermost(decl.value.typeLoc.value)).safe)
    ensures r.Some? ==> r.value == IsTypeSafe(MATCHER, Innermost(decl.value.typeLoc.value)).view
  {
    if decl.None? then CfgAst.None
    else
      var d := decl.value;
      if d.inSystemHeader || !d.inMainFile || !d.locValid || d.dependentContext || d.dependentType
         || d.isConstexpr || d.constQualified || d.templateSpecialisation then CfgAst.None
      else if d.isParm && d.inDeletedFunction then CfgAst.None
      else if d.isAuto && d.mutInitializer then CfgAst.None
      else if d.typeLoc.None? then CfgAst.None
      else
        var text := Innermost(d.typeLoc.value);
        if text == [] then CfgAst.None
        else
          var verdict := IsTypeSafe(MATCHER, text);
          if verdict.safe then CfgAst.None else CfgAst.Some(verdict.view)
  }

  const VIOLATION_TAG: string := ": [Auxid] Violation: "
  const MATCHER_ADVICE: string :=
    "Must either be marked `const` or be " + "wrapped in `Mut<T>`, `Ref<T>`, " + "`MutRef<T>`, or `ForwardRef<T>`."
  const VALIDATOR_ADVICE: string := "Must be wrapped in Mut<T>, T, " + "Ref<T>, MutRef<T>, or ForwardRef<T>."
  const WARNING_TAG: string := " \U{26A0}\U{FE0F}  [WARNING]  "
  const ANSI_YELLOW: string := "\U{1B}[33m"
  const ANSI_RESET: string := "\U{1B}[0m"

  /** "Variable '<name>' has unsafe type '<text>'. " followed by the advice. */
  function Complaint(name: string, typeText: string, advice: string): string {
    "Variable '" + name + "' has unsafe type '" + typeText + "'. " + advice
  }

  /** `<path>:<line>:<column>`, the location prefix both printers use. */
  function Location(path: string, line: nat, column: nat): string {
    path + ":" + Decimal(line) + ":" + Decimal(column)
  }

  /** The matcher's printed line: the real path, the spelling location, the complaint. */
  function MatcherLine(path: string, d: VarInfo, typeText: string): string {
    Location(path, d.line, d.column) + VIOLATION_TAG + Complaint(d.name, typeText, MATCHER_ADVICE) + "\n"
  }

  /** The matcher callback; `path` is the file's real path (empty when there is no file entry). */
  function MatcherOutput(decl: CfgAst.Option<VarInfo>, path: string): string {
    match MatcherFinding(decl)
    case None => ""
    case Some(view) => MatcherLine(path, decl.value, view)
  }

  /** `s` is one line: a single newline, at the end. */
  predicate OneLine(s: string) {
    |s| > 0 && s[|s| - 1] == '\n' && '\n' !in s[..|s| - 1]
  }

  lemma {:induction false} NoNewlineInDecimal(n: nat)
    ensures '\n' !in Decimal(n)
  {
    var s := Decimal(n);
    forall i | 0 <= i < |s| ensures s[i] != '\n' {
      assert '0' <= s[i] <= '9';
    }
  }

  lemma {:induction false} LocationHasNoNewline(path: string, line: nat, column: nat)
    requires '\n' !in path
    ensures '\n' !in Location(path, line, column)
    ensures StartsWith(Location(path, line, column), path + ":")
  {
    NoNewlineInDecimal(line);
    NoNewlineInDecimal(column);
    var loc := Location(path, line, column);
    assert loc == (path + ":") + (Decimal(line) + ":" + Decimal(column));
    assert loc[..|path + ":"|] == path + ":";
  }

  lemma {:induction false} ComplaintHasNoNewline(name: string, typeText: string, advice: string)
    requires '\n' !in name && '\n' !in typeText && '\n' !in advice
    ensures '\n' !in Complaint(name, typeText, advice)
  {
    assert '\n' !in "Variable '" && '\n' !in "' has unsafe type '" && '\n' !in "'. ";
  }

  lemma ConstantsHaveNoNewline()
    ensures '\n' !in VIOLATION_TAG && '\n' !in MATCHER_ADVICE && '\n' !in VALIDATOR_ADVICE
    ensures '\n' !in WARNING_TAG && '\n' !in ANSI_YELLOW && '\n' !in ANSI_RESET
  {
    MatcherAdviceHasNoNewline();
    ValidatorAdviceHasNoNewline();
    TagsHaveNoNewline();
  }

  lemma MatcherAdviceHasNoNewline()
    ensures '\n' !in MATCHER_ADVICE
  {
    var a, b, c := "Must either be marked `const` or be ", "wrapped in `Mut<T>`, `Ref<T>`, ", "`MutRef<T>`, or `ForwardRef<T>`.";
    assert '\n' !in a;
    assert '\n' !in b;
    assert '\n' !in c;
    NoNewlineConcat(a, b);
    NoNewlineConcat(a + b, c);
  }

  lemma ValidatorAdviceHasNoNewline()
    ensures '\n' !in VALIDATOR_ADVICE
  {
    assert '\n' !in "Must be wrapped in Mut<T>, T, ";
    assert '\n' !in "Ref<T>, MutRef<T>, or ForwardRef<T>.";
  }

  lemma TagsHaveNoNewline()
    ensures '\n' !in VIOLATION_TAG && '\n' !in WARNING_TAG && '\n' !in ANSI_YELLOW && '\n' !in ANSI_RESET
  {
  }

  /** A newline-free head followed by one newline is one line. */
  lemma {:induction false} HeadThenNewline(head: string)
    requires '\n' !in head
    ensures OneLine(head + "\n")
  {
    assert (head + "\n")[..|head|] == head;
  }

  /**
   An unsafe, non-exempt declaration prints exactly one line, which starts
   with the path (given a path, name and type text without newlines).
   Reference-typed and cheap-to-copy parameters are not exempt here.
   */
  lemma {:induction false} MatcherPrintsOneLine(d: VarInfo, path: string)
    requires MatcherFinding(CfgAst.Some(d)).Some?
    requires '\n' !in path && '\n' !in d.name && '\n' !in MatcherFinding(CfgAst.Some(d)).value
    ensures OneLine(MatcherOutput(CfgAst.Some(d), path))
    ensures StartsWith(MatcherOutput(CfgAst.Some(d), path), path + ":")
  {
    var view := MatcherFinding(CfgAst.Some(d)).value;
    var complaint := Complaint(d.name, view, MATCHER_ADVICE);
    ConstantsHaveNoNewline();
    ComplaintHasNoNewline(d.name, view, MATCHER_ADVICE);
    assert MatcherOutput(CfgAst.Some(d), path) == Location(path, d.line, d.column) + VIOLATION_TAG + complaint + "\n";
    ReportLineShape(path, d.line, d.column, VIOLATION_TAG, complaint);
  }

  /** A location, a tag and a complaint, none holding a newline, make one line that starts with the path. */
  lemma {:induction false} ReportLineShape(path: string, line: nat, column: nat, tag: string, complaint: string)
    requires '\n' !in path && '\n' !in tag && '\n' !in complaint
    ensures OneLine(Location(path, line, column) + tag + complaint + "\n")
    ensures StartsWith(Location(path, line, column) + tag + complaint + "\n", path + ":")
  {
    var loc := Location(path, line, column);
    LocationHasNoNewline(path, line, column);
    NoNewlineConcat(loc, tag);
    NoNewlineConcat(loc + tag, complaint);
    HeadThenNewline(loc + tag + complaint);
    StartsWithExtend(loc, tag, path + ":");
    StartsWithExtend(loc + tag, complaint, path + ":");
    StartsWithExtend(loc + tag + complaint, "\n", path + ":");
  }

  /** No output for a declaration in a system header, outside the main file or at an invalid location. */
  lemma {:induction false} MatcherLocationFilters(d: VarInfo, path: string)
    requires d.inSystemHeader || !d.inMainFile || !d.locValid
    ensures MatcherOutput(CfgAst.Some(d), path) == ""
  {
  }

  // ---------------------------------------------------------------------------
  // Validator.cpp
  // ---------------------------------------------------------------------------

  /** `MutabilityMatchHandler::run`'s exemptions: no const, reference, template or auto exemption. */
  predicate ValidatorExempt(d: VarInfo) {
    || d.isConstexpr || d.dependentContext || d.dependentType
    || d.inSystemHeader || !d.inMainFile || !d.locValid
    || (d.isParm && d.inDeletedFunction)
  }

  /** `MutabilityMatchHandler::run`'s decision: the stripped, trimmed type text to print, or `None`. */
  function ValidatorFinding(decl: CfgAst.Option<VarInfo>): (r: CfgAst.Option<string>)
    ensures r.Some? <==> (decl.Some? && !ValidatorExempt(decl.value) && decl.value.typeLoc.Some?
      && Innermost(decl.value.typeLoc.value) != [] && !IsTypeSafe(VALIDATOR, Innermost(decl.value.typeLoc.value)).safe)
    ensures r.Some? ==> r.value == IsTypeSafe(VALIDATOR, Innermost(decl.value.typeLoc.value)).view
  {
    if decl.None? then CfgAst.None
    else
      var d := decl.value;
      if d.isConstexpr || d.dependentContext || d.dependentType then CfgAst.None
      else if d.inSystemHeader || !d.inMainFile || !d.locValid then CfgAst.None
      else if d.isParm && d.inDeletedFunction then CfgAst.None
      else if d.typeLoc.None? then CfgAst.None
      else
        var text := Innermost(d.typeLoc.value);
        if text == [] then CfgAst.None
        else
          var verdict := IsTypeSafe(VALIDATOR, text);
          if verdict.safe then CfgAst.None else CfgAst.Some(verdict.view)
  }

  /**
   The validator's printed line. Raw mode: the real path, the location and
   the complaint. Pretty mode: yellow, a warning sign, the display path, the
   complaint, reset.
   */
  function ValidatorLine(raw: bool, path: string, display: string, d: VarInfo, typeText: string): string {
    if raw then
      Location(path, d.line, d.column) + VIOLATION_TAG + Complaint(d.name, typeText, VALIDATOR_ADVICE) + "\n"
    else
      ANSI_YELLOW + WARNING_TAG + display + ":" + PrettyMiddle(d, typeText) + ANSI_RESET + "\n"
  }

  /**
   `MutabilityMatchHandler::run`. `relative` is the path relative to the
   working directory, or `None` when `std::filesystem::relative` reports an
   error; `raw` is the `--raw` command-line option.
   */
  function ValidatorOutput(decl: CfgAst.Option<VarInfo>, path: string, relative: CfgAst.Option<string>, raw: bool): string {
    match ValidatorFinding(decl)
    case None => ""
    case Some(view) =>
      var display := if relative.Some? then relative.value else path;
      ValidatorLine(raw, path, display, decl.value, view)
  }

  /** Raw mode prints one line that starts with the absolute path. A const-qualified variable is not exempt here. */
  lemma {:induction false} ValidatorRawLine(d: VarInfo, path: string, relative: CfgAst.Option<string>)
    requires ValidatorFinding(CfgAst.Some(d)).Some?
    requires '\n' !in path && '\n' !in d.name && '\n' !in ValidatorFinding(CfgAst.Some(d)).value
    ensures OneLine(ValidatorOutput(CfgAst.Some(d), path, relative, true))
    ensures StartsWith(ValidatorOutput(CfgAst.Some(d), path, relative, true), path + ":")
  {
    var view := ValidatorFinding(CfgAst.Some(d)).value;
    var complaint := Complaint(d.name, view, VALIDATOR_ADVICE);
    ConstantsHaveNoNewline();
    ComplaintHasNoNewline(d.name, view, VALIDATOR_ADVICE);
    assert ValidatorOutput(CfgAst.Some(d), path, relative, true) == Location(path, d.line, d.column) + VIOLATION_TAG + complaint + "\n";
    ReportLineShape(path, d.line, d.column, VIOLATION_TAG, complaint);
  }

  /**
   Pretty mode prints one line that starts with the yellow escape and the
   warning sign, shows the relative path when it could be computed and the
   absolute path otherwise, and ends by resetting the colour.
   */
  lemma {:induction false} ValidatorPrettyLine(d: VarInfo, path: string, relative: CfgAst.Option<string>)
    requires ValidatorFinding(CfgAst.Some(d)).Some?
    requires '\n' !in path && '\n' !in d.name && '\n' !in ValidatorFinding(CfgAst.Some(d)).value
    requires relative.Some? ==> '\n' !in relative.value
    ensures OneLine(ValidatorOutput(CfgAst.Some(d), path, relative, false))
    ensures StartsWith(ValidatorOutput(CfgAst.Some(d), path, relative, false),
      ANSI_YELLOW + WARNING_TAG + (if relative.Some? then relative.value else path) + ":")
    ensures EndsWith(ValidatorOutput(CfgAst.Some(d), path, relative, false), ANSI_RESET + "\n")
  {
    var view := ValidatorFinding(CfgAst.Some(d)).value;
    var display := if relative.Some? then relative.value else path;
    assert ValidatorOutput(CfgAst.Some(d), path, relative, false) == ValidatorLine(false, path, display, d, view);
    PrettyLineShape(path, display, d, view);
  }

  /** The shape of a pretty-mode line, for any display path and type text without newlines. */
  lemma {:induction false} PrettyLineShape(path: string, display: string, d: VarInfo, typeText: string)
    requires '\n' !in display && '\n' !in d.name && '\n' !in typeText
    ensures OneLine(ValidatorLine(false, path, display, d, typeText))
    ensures StartsWith(ValidatorLine(false, path, display, d, typeText), ANSI_YELLOW + WARNING_TAG + display + ":")
    ensures EndsWith(ValidatorLine(false, path, display, d, typeText), ANSI_RESET + "\n")
  {
    var lead := ANSI_YELLOW + WARNING_TAG + display + ":";
    var middle := PrettyMiddle(d, typeText);
    assert ValidatorLine(false, path, display, d, typeText) == lead + middle + ANSI_RESET + "\n";
    PrettyPieces(lead, middle);
    TagsHaveNoNewline();
    NoNewlineConcat(ANSI_YELLOW, WARNING_TAG);
    NoNewlineConcat(ANSI_YELLOW + WARNING_TAG, display);
    NoNewlineConcat(ANSI_YELLOW + WARNING_TAG + display, ":");
    PrettyMiddleHasNoNewline(d, typeText);
  }

  /** Everything a pretty line holds between the display path's colon and the colour reset: the rest of the location, then the complaint. */
  function PrettyMiddle(d: VarInfo, typeText: string): string {
    Decimal(d.line) + ":" + Decimal(d.column) + ": " + Complaint(d.name, typeText, VALIDATOR_ADVICE)
  }

  lemma {:induction false} PrettyMiddleHasNoNewline(d: VarInfo, typeText: string)
    requires '\n' !in d.name && '\n' !in typeText
    ensures '\n' !in PrettyMiddle(d, typeText)
  {
    ValidatorAdviceHasNoNewline();
    ComplaintHasNoNewline(d.name, typeText, VALIDATOR_ADVICE);
    NoNewlineInDecimal(d.line);
    NoNewlineInDecimal(d.column);
  }

  lemma NoNewlineConcat(a: string, b: string)
    requires '\n' !in a && '\n' !in b
    ensures '\n' !in a + b
  {
  }

  /** `lead + middle + reset + newline` starts with `lead`, ends with `reset + newline`, and is one line. */
  lemma {:induction false} PrettyPieces(lead: string, middle: string)
    ensures StartsWith(lead + middle + ANSI_RESET + "\n", lead)
    ensures EndsWith(lead + middle + ANSI_RESET + "\n", ANSI_RESET + "\n")
    ensures '\n' !in lead && '\n' !in middle ==> OneLine(lead + middle + ANSI_RESET + "\n")
  {
    var line := lead + middle + ANSI_RESET + "\n";
    assert line == lead + (middle + ANSI_RESET + "\n");
    StartsWithConcat(lead, middle + ANSI_RESET + "\n");
    assert line == (lead + middle) + (ANSI_RESET + "\n");
    EndsWithConcat(lead + middle, ANSI_RESET + "\n");
    if '\n' !in lead && '\n' !in middle {
      TagsHaveNoNewline();
      assert line == (lead + middle + ANSI_RESET) + "\n";
      HeadThenNewline(lead + middle + ANSI_RESET);
    }
  }
}
