/**
 * What the controller promises, stated over the model in `Controller`:
 * the id policy, the order of the guards, the ids short-circuit and the
 * page-size arithmetic of the list path, the split-and-validate behaviour of
 * the id-list path, scope-name normalisation, and the precedence of a
 * missing scope over every request error.
 */
module ControllerProperties {
  import opened Wrappers
  import opened PhpStrings
  import opened PhpNumeric
  import opened Controller

  // ---------------------------------------------------------------------------
  // validateId

  /** The default policy accepts exactly the unsigned or '+' numerals whose integer digits are not all zero. */
  lemma DefaultValidateIdOfNumeral(n: Numeral)
    requires WellFormed(n)
    ensures DefaultValidateId(Render(n)) <==>
      n.sign != Minus && exists i :: 0 <= i < |n.whole| && n.whole[i] != '0'
  {
    ParseRender(n);
    DigitsValuePositive(n.whole);
  }

  /** On digit strings the default policy accepts exactly those with a non-zero digit; "" is rejected. */
  lemma DefaultValidateIdOfDigits(s: string)
    requires AllDigits(s)
    ensures DefaultValidateId(s) <==> exists i :: 0 <= i < |s| && s[i] != '0'
  {
    DigitStringIsNumeral(s);
    DigitsValuePositive(s);
  }

  /** "12" and "007" are accepted. */
  lemma DefaultValidateIdAcceptsDigits()
    ensures DefaultValidateId("12") && DefaultValidateId("007")
  {
    assert DefaultValidateId("12") by {
      DefaultValidateIdOfDigits("12");
      assert "12"[0] != '0';
    }
    assert DefaultValidateId("007") by {
      DefaultValidateIdOfDigits("007");
      assert "007"[2] != '0';
    }
  }

  /** "0" and "" are rejected. */
  lemma DefaultValidateIdRejectsZeroAndEmpty()
    ensures !DefaultValidateId("0") && !DefaultValidateId("")
  {
    assert !DefaultValidateId("0") by {
      DefaultValidateIdOfDigits("0");
    }
    assert !DefaultValidateId("") by {
      DefaultValidateIdOfDigits("");
    }
  }

  /** "1.5" is accepted: its integer part is 1. */
  lemma DefaultValidateIdAcceptsFraction()
    ensures DefaultValidateId("1.5")
  {
    assert DefaultValidateId("1.5") by {
      var n := Numeral(NoSign, "1", true, "5");
      assert Render(n) == "1.5";
      DefaultValidateIdOfNumeral(n);
      assert n.whole[0] != '0';
    }
  }

  /** "0.5" is rejected: its integer part is 0. */
  lemma DefaultValidateIdRejectsZeroPart()
    ensures !DefaultValidateId("0.5")
  {
    assert !DefaultValidateId("0.5") by {
      var n := Numeral(NoSign, "0", true, "5");
      assert Render(n) == "0.5";
      DefaultValidateIdOfNumeral(n);
    }
  }

  /** A negative numeral and a non-numeric string are rejected. */
  lemma DefaultValidateIdRejectionExamples()
    ensures !DefaultValidateId("-3") && !DefaultValidateId("abc")
  {
    assert !DefaultValidateId("-3") by {
      var n := Numeral(Minus, "3", false, "");
      assert Render(n) == "-3";
      DefaultValidateIdOfNumeral(n);
    }
    assert !DefaultValidateId("abc") by {
      assert SplitSign("abc") == (NoSign, "abc");
    }
  }

  // ---------------------------------------------------------------------------
  // select

  /**
   * The guards run in a fixed order: a non-GET request fails with
   * MethodNotAllowed whatever its id; a GET with an unusable id fails with
   * InvalidSyntax; a usable id that the lookup does not find fails with
   * ItemNotFound.
   */
  lemma SelectGuardOrder<T>(res: Resource<T>, req: Request, lookup: string -> Option<T>)
    ensures req.verb != "GET" ==> Select(res, req, lookup) == Fail(MethodNotAllowed)
    ensures req.verb == "GET" && !IdAccepted(res.validId, req.routeId) ==>
      Select(res, req, lookup) == Fail(InvalidSyntax)
    ensures req.verb == "GET" && IdAccepted(res.validId, req.routeId) && lookup(req.routeId.value).None? ==>
      Select(res, req, lookup) == Fail(ItemNotFound)
  {
  }

  /**
   * The lookup is consulted only for an accepted id and only at that id:
   * a rejected request gives the same outcome whatever the lookup is, and two
   * lookups that agree on the route id give the same outcome.
   */
  lemma SelectLookupConsultedOnlyForAcceptedId<T>(res: Resource<T>, req: Request,
                                                  lookup1: string -> Option<T>, lookup2: string -> Option<T>)
    requires req.verb != "GET" || !IdAccepted(res.validId, req.routeId)
             || lookup1(req.routeId.value) == lookup2(req.routeId.value)
    ensures Select(res, req, lookup1) == Select(res, req, lookup2)
  {
  }

  // ---------------------------------------------------------------------------
  // collect

  /**
   * A truthy `ids` parameter on a GET hands the request to the id-list path:
   * the outcome is that of ShowMultiple, whatever the list callback and
   * whatever the `limit` parameter.
   */
  lemma CollectIdsShortCircuit<T>(res: Resource<T>, req: Request, list1: (int, Option<string>) -> seq<T>,
                                  list2: (int, Option<string>) -> seq<T>, otherLimit: Option<int>)
    requires req.verb == "GET" && Truthy(req.ids)
    ensures Collect(res, req, list1) == ShowMultiple(res, req.ids.value, req.fields)
    ensures Collect(res, req, list1) == Collect(res, req.(limit := otherLimit), list2)
  {
  }

  /**
   * An `ids` value PHP reads as false (absent, "" or "0") does not divert
   * the request: the list path runs as if no ids were given.
   */
  lemma FalsyIdsPaginate<T>(res: Resource<T>, req: Request, list: (int, Option<string>) -> seq<T>)
    requires req.ids.None? || req.ids.value == "" || req.ids.value == "0"
    ensures !Truthy(req.ids)
    ensures Collect(res, req, list) == Collect(res, req.(ids := None), list)
  {
  }

  /**
   * Without ids, a GET fails with BigLimit exactly when the effective limit
   * is above the controller's ceiling; otherwise the callback receives the
   * effective limit and the route id, and its records are rendered.
   */
  lemma CollectCeiling<T>(res: Resource<T>, req: Request, list: (int, Option<string>) -> seq<T>)
    requires req.verb == "GET" && !Truthy(req.ids)
    ensures Collect(res, req, list) == Fail(BigLimit) <==> EffectiveLimit(req.limit) > res.limitMax
    ensures EffectiveLimit(req.limit) <= res.limitMax ==>
      Collect(res, req, list) == RenderCollection(list(EffectiveLimit(req.limit), req.routeId), req.fields)
  {
  }

  /**
   * Under the base class's ceiling of 1000, a GET without ids fails with
   * BigLimit exactly when a non-zero limit above 1000 is given (the default
   * 12 never is); otherwise the callback receives the given limit, or 12
   * when it is absent or 0, and the route id.
   */
  lemma CollectLimit<T>(res: Resource<T>, req: Request, list: (int, Option<string>) -> seq<T>)
    requires req.verb == "GET" && !Truthy(req.ids)
    requires res.limitMax == LIMIT_MAX
    ensures Collect(res, req, list) == Fail(BigLimit) <==> req.limit.Some? && req.limit.value > LIMIT_MAX
    ensures req.limit.None? || req.limit.value == 0 ==>
      Collect(res, req, list) == RenderCollection(list(12, req.routeId), req.fields)
    ensures req.limit.Some? && req.limit.value != 0 && req.limit.value <= LIMIT_MAX ==>
      Collect(res, req, list) == RenderCollection(list(req.limit.value, req.routeId), req.fields)
  {
  }

  /** Whenever the list callback is reached, the page size it receives is within the ceiling. */
  lemma CollectPageSizeBounded<T>(res: Resource<T>, req: Request, list: (int, Option<string>) -> seq<T>)
    requires req.verb == "GET" && !Truthy(req.ids)
    requires Collect(res, req, list).RenderCollection?
    ensures EffectiveLimit(req.limit) <= res.limitMax
    ensures Collect(res, req, list).records == list(EffectiveLimit(req.limit), req.routeId)
  {
  }

  /** A non-GET request fails with MethodNotAllowed before `ids` or `limit` is looked at. */
  lemma CollectMethodFirst<T>(res: Resource<T>, req: Request, list: (int, Option<string>) -> seq<T>)
    requires req.verb != "GET"
    ensures Collect(res, req, list) == Fail(MethodNotAllowed)
  {
  }

  // ---------------------------------------------------------------------------
  // showMutliple

  /**
   * The id list fails with TooManyIds exactly when it has at least as many
   * commas as the ceiling (more pieces than the ceiling), whatever the id
   * policy and the bulk lookup.
   */
  lemma ShowMultipleTooManyIds<T>(res: Resource<T>, ids: string, fields: Option<string>,
                                  validId: string -> bool, findMany: seq<string> -> seq<T>)
    ensures ShowMultiple(res, ids, fields) == Fail(TooManyIds) <==> Count(ids, ',') >= res.limitMax
    ensures Count(ids, ',') >= res.limitMax ==>
      ShowMultiple(res.(validId := validId, findMany := findMany), ids, fields) == Fail(TooManyIds)
  {
  }

  /**
   * Within the ceiling, the id list fails with InvalidSyntax exactly when
   * some piece (empty ones included) is rejected by the policy, and the
   * bulk lookup is not consulted.
   */
  lemma ShowMultipleInvalidPiece<T>(res: Resource<T>, ids: string, fields: Option<string>,
                                    findMany: seq<string> -> seq<T>)
    requires Count(ids, ',') < res.limitMax
    ensures ShowMultiple(res, ids, fields) == Fail(InvalidSyntax) <==>
      exists k :: 0 <= k < |Explode(ids, ',')| && !res.validId(Explode(ids, ',')[k])
    ensures ShowMultiple(res, ids, fields) == Fail(InvalidSyntax) ==>
      ShowMultiple(res.(findMany := findMany), ids, fields) == Fail(InvalidSyntax)
  {
    var pieces := Explode(ids, ',');
    assert |pieces| <= res.limitMax;
    if exists k :: 0 <= k < |pieces| && !res.validId(pieces[k]) {
      var k :| 0 <= k < |pieces| && !res.validId(pieces[k]);
      assert 0 <= k < |Explode(ids, ',')| && !res.validId(Explode(ids, ',')[k]);
      assert FirstInvalid(pieces, res.validId).Some?;
      assert ShowMultiple(res, ids, fields) == Fail(InvalidSyntax);
      assert res.(findMany := findMany).validId == res.validId;
    } else {
      assert FirstInvalid(pieces, res.validId).None?;
      assert ShowMultiple(res, ids, fields).RenderCollection?;
    }
  }

  /**
   * The id list is rendered exactly when it is within the ceiling and every
   * piece is accepted; the bulk lookup then receives the pieces in their
   * original order, which join back into the parameter, and the result is
   * always collection-shaped.
   */
  lemma ShowMultipleRenders<T>(res: Resource<T>, ids: string, fields: Option<string>)
    ensures ShowMultiple(res, ids, fields).RenderCollection? <==>
      Count(ids, ',') < res.limitMax && forall k :: 0 <= k < |Explode(ids, ',')| ==> res.validId(Explode(ids, ',')[k])
    ensures ShowMultiple(res, ids, fields).RenderCollection? ==>
      ShowMultiple(res, ids, fields) == RenderCollection(res.findMany(Explode(ids, ',')), fields)
      && Implode(Explode(ids, ','), ',') == ids
  {
    ImplodeExplode(ids, ',');
  }

  /** "1,,2" splits into three pieces, the middle one empty, and so fails under the base class's policy and ceiling. */
  lemma ShowMultipleEmptyPiece<T>(res: Resource<T>, fields: Option<string>)
    requires res.validId == DefaultValidateId && res.limitMax == LIMIT_MAX
    ensures Explode("1,,2", ',') == ["1", "", "2"]
    ensures ShowMultiple(res, "1,,2", fields) == Fail(InvalidSyntax)
  {
    ExplodeImplode(["1", "", "2"], ',');
    assert Implode(["1", "", "2"], ',') == "1,,2";
    DefaultValidateIdOfDigits("");
    assert FirstInvalid(["1", "", "2"], res.validId).Some?;
  }

  // ---------------------------------------------------------------------------
  // getScope

  /** A word of a path segment: no hyphen and no ucwords delimiter inside. */
  predicate PlainWord(w: string)
  {
    forall i :: 0 <= i < |w| ==> w[i] != '-' && !IsWordDelimiter(w[i])
  }

  /** A word with its first letter upper-cased. */
  function Capitalize(w: string): string
  {
    if w == [] then [] else [Upper(w[0])] + w[1..]
  }

  /** Words capitalised and joined without separators. */
  function PascalCase(words: seq<string>): string
  {
    if words == [] then [] else Capitalize(words[0]) + PascalCase(words[1..])
  }

  /**
   * The scope-name normalisation before `lcfirst`, in one left-to-right pass:
   * a hyphen reads as a space, a character at a word start is upper-cased,
   * spaces are dropped, and every ucwords delimiter starts a new word.
   */
  function Normalize(s: string, atWordStart: bool): string
  {
    if s == [] then []
    else
      var c := if s[0] == '-' then ' ' else s[0];
      var x := if atWordStart then Upper(c) else c;
      (if x == ' ' then [] else [x]) + Normalize(s[1..], IsWordDelimiter(c))
  }

  /** The three-stage `str_replace` / `ucwords` / `str_replace` pipeline is the one-pass normalisation. */
  lemma {:induction false} PipelineIsNormalize(s: string, atWordStart: bool)
    ensures RemoveChar(UcWordsFrom(ReplaceChar(s, '-', ' '), atWordStart), ' ') == Normalize(s, atWordStart)
  {
    if s != [] {
      var r := ReplaceChar(s, '-', ' ');
      assert r == [r[0]] + ReplaceChar(s[1..], '-', ' ');
      var u := UcWordsFrom(r, atWordStart);
      assert u == [u[0]] + UcWordsFrom(ReplaceChar(s[1..], '-', ' '), IsWordDelimiter(r[0]));
      PipelineIsNormalize(s[1..], IsWordDelimiter(r[0]));
    }
  }

  /** A word character is kept, upper-cased at a word start, and the next one continues the word. */
  lemma NormalizeWordChar(c: char, t: string, atWordStart: bool)
    requires c != '-' && !IsWordDelimiter(c)
    ensures Normalize([c] + t, atWordStart) == [if atWordStart then Upper(c) else c] + Normalize(t, false)
  {
    assert ([c] + t)[0] == c && ([c] + t)[1..] == t;
  }

  /** Inside a word the characters pass through unchanged. */
  lemma {:induction false} NormalizeInsideWord(w: string, t: string)
    requires PlainWord(w)
    ensures Normalize(w + t, false) == w + Normalize(t, false)
  {
    if w == [] {
      assert w + t == t;
    } else {
      assert w + t == [w[0]] + (w[1..] + t);
      NormalizeWordChar(w[0], w[1..] + t, false);
      NormalizeInsideWord(w[1..], t);
      assert [w[0]] + (w[1..] + Normalize(t, false)) == w + Normalize(t, false);
    }
  }

  /** A non-empty word at a word start comes out capitalised, and what follows continues the word. */
  lemma NormalizeWord(w: string, t: string)
    requires PlainWord(w) && w != []
    ensures Normalize(w + t, true) == Capitalize(w) + Normalize(t, false)
  {
    var n := Normalize(t, false);
    calc {
      Normalize(w + t, true);
      { assert w + t == [w[0]] + (w[1..] + t); }
      Normalize([w[0]] + (w[1..] + t), true);
      { NormalizeWordChar(w[0], w[1..] + t, true); }
      [Upper(w[0])] + Normalize(w[1..] + t, false);
      { NormalizeInsideWord(w[1..], t); }
      [Upper(w[0])] + (w[1..] + n);
      { assert [Upper(w[0])] + (w[1..] + n) == ([Upper(w[0])] + w[1..]) + n; }
      Capitalize(w) + n;
    }
  }

  /** A hyphen is dropped and starts a new word. */
  lemma NormalizeHyphen(t: string, atWordStart: bool)
    ensures Normalize(['-'] + t, atWordStart) == Normalize(t, true)
  {
    assert (['-'] + t)[1..] == t;
    assert Upper(' ') == ' ';
  }

  /** Hyphen-joined plain words normalise to the words' `PascalCase`. */
  lemma {:induction false} NormalizeKebab(words: seq<string>)
    requires |words| > 0
    requires forall i :: 0 <= i < |words| ==> PlainWord(words[i])
    ensures Normalize(Implode(words, '-'), true) == PascalCase(words)
  {
    var w := words[0];
    assert PascalCase(words) == Capitalize(w) + PascalCase(words[1..]);
    if |words| == 1 {
      assert Implode(words, '-') == w;
      if w != [] {
        NormalizeWord(w, []);
        assert w + [] == w;
      }
    } else {
      var rest := Implode(words[1..], '-');
      assert Implode(words, '-') == w + (['-'] + rest);
      NormalizeHyphen(rest, w == []);
      NormalizeKebab(words[1..]);
      if w == [] {
        assert w + (['-'] + rest) == ['-'] + rest;
      } else {
        NormalizeWord(w, ['-'] + rest);
      }
    }
  }

  /**
   * A hyphen-separated segment becomes the lower-camel scope name: its words
   * capitalised and joined, then the first letter lowered.
   */
  lemma ScopeNameOfKebab(words: seq<string>)
    requires |words| > 0
    requires forall i :: 0 <= i < |words| ==> PlainWord(words[i])
    ensures ScopeName(Implode(words, '-')) == LcFirst(PascalCase(words))
  {
    PipelineIsNormalize(Implode(words, '-'), true);
    NormalizeKebab(words);
  }

  /** A scope name never holds a hyphen or a space. */
  lemma ScopeNameHasNoSeparators(segment: string)
    ensures '-' !in ScopeName(segment) && ' ' !in ScopeName(segment)
  {
    var r0 := ReplaceChar(segment, '-', ' ');
    assert forall i :: 0 <= i < |r0| ==> r0[i] != '-';
    var r1 := UcWords(r0);
    forall i | 0 <= i < |r1| ensures r1[i] != '-' {
      assert r0[i] != '-';
      assert Upper(r0[i]) != '-';
      assert r1[i] == (if i == 0 || IsWordDelimiter(r0[i - 1]) then Upper(r0[i]) else r0[i]);
    }
    var r2 := RemoveChar(r1, ' ');
    assert '-' !in r2;
    var r3 := LcFirst(r2);
    assert forall i :: 0 <= i < |r3| ==> r3[i] != '-' && r3[i] != ' ' by {
      forall i | 0 <= i < |r3| ensures r3[i] != '-' && r3[i] != ' ' {
        assert r2[i] in r2;
      }
    }
  }

  /** "by-author" is the two plain words "by" and "author" joined by a hyphen. */
  lemma ByAuthorKebab()
    ensures PlainWord("by") && PlainWord("author")
    ensures Implode(["by", "author"], '-') == "by-author"
  {
  }

  /** The capitalised join of "by" and "author" is "ByAuthor". */
  lemma ByAuthorPascal()
    ensures PascalCase(["by", "author"]) == "ByAuthor"
  {
    assert Capitalize("by") == "By";
    assert Capitalize("author") == "Author";
    assert ["by", "author"][1..] == ["author"];
  }

  /** "by-author" names the scope "byAuthor". */
  lemma ScopeNameByAuthor()
    ensures ScopeName("by-author") == "byAuthor"
  {
    var words := ["by", "author"];
    ByAuthorKebab();
    ByAuthorPascal();
    ScopeNameOfKebab(words);
    assert LcFirst("ByAuthor") == "byAuthor";
  }

  /** Method lookup ignores case: a declared method matches every spelling that lower-cases the same. */
  lemma HasMethodIgnoresCase(methods: set<string>, declared: string, name: string)
    requires declared in methods
    requires |declared| == |name| && forall i :: 0 <= i < |name| ==> Lower(declared[i]) == Lower(name[i])
    ensures HasMethod(methods, name)
  {
    assert LowerAll(declared) == LowerAll(name);
  }

  /** Two names match when they have the same length and agree letter by letter up to case. */
  predicate SameIgnoringCase(a: string, b: string)
  {
    |a| == |b| && forall i :: 0 <= i < |a| ==> Lower(a[i]) == Lower(b[i])
  }

  /** `method_exists` holds exactly when some declared method spells the name up to case. */
  lemma HasMethodIff(methods: set<string>, name: string)
    ensures HasMethod(methods, name) <==> exists m :: m in methods && SameIgnoringCase(m, name)
  {
    forall m | m in methods
      ensures LowerAll(m) == LowerAll(name) <==> SameIgnoringCase(m, name)
    {
      if SameIgnoringCase(m, name) {
        assert LowerAll(m) == LowerAll(name);
      }
      if LowerAll(m) == LowerAll(name) {
        forall i | 0 <= i < |m| ensures Lower(m[i]) == Lower(name[i]) {
          assert LowerAll(m)[i] == LowerAll(name)[i];
        }
      }
    }
  }

  /**
   * A `showScope` route ending in "by-author/{id}" resolves to the scope
   * "byAuthor" on a model declaring `scopeByAuthor` (the built name
   * `scopebyAuthor` differs only in case), and to ScopeMissing on a model
   * without it.
   */
  lemma ScopeByAuthor(segments: seq<string>)
    requires |segments| >= 2 && segments[|segments| - 2] == "by-author"
    ensures GetScope({"scopeByAuthor"}, segments, -2) == Success("byAuthor")
    ensures GetScope({}, segments, -2) == Failure(ScopeMissing("byAuthor"))
  {
    var scope := ScopeName(SegmentText(SegmentAt(segments, -2)));
    assert scope == "byAuthor" by {
      assert SegmentText(SegmentAt(segments, -2)) == "by-author";
      ScopeNameByAuthor();
    }
    assert HasMethod({"scopeByAuthor"}, "scope" + scope) by {
      assert "scope" + scope == "scopebyAuthor";
      HasMethodIgnoresCase({"scopeByAuthor"}, "scopeByAuthor", "scopebyAuthor");
    }
  }

  // ---------------------------------------------------------------------------
  // show, index, showScope, indexScope

  /**
   * `show` renders exactly the item the model finds at an accepted route id,
   * with the `fields` selector passed through; an accepted id the model does
   * not find fails with ItemNotFound.
   */
  lemma ShowRendersFoundItem<T>(res: Resource<T>, req: Request, item: T, fields: Option<string>)
    ensures Show(res, req) == RenderItem(item, fields) <==>
      req.verb == "GET" && IdAccepted(res.validId, req.routeId)
      && res.find(req.routeId.value) == Some(item) && fields == req.fields
    ensures req.verb == "GET" && IdAccepted(res.validId, req.routeId) && res.find(req.routeId.value).None? ==>
      Show(res, req) == Fail(ItemNotFound)
  {
  }

  /** `index` with truthy `ids` is the id-list path, whatever `limit` says. */
  lemma IndexWithIds<T>(res: Resource<T>, req: Request)
    requires req.verb == "GET" && Truthy(req.ids)
    ensures Index(res, req) == ShowMultiple(res, req.ids.value, req.fields)
  {
  }

  /** `index` without ids pages the model with the effective limit, or fails with BigLimit above the ceiling. */
  lemma IndexPaginates<T>(res: Resource<T>, req: Request)
    requires req.verb == "GET" && !Truthy(req.ids)
    ensures EffectiveLimit(req.limit) <= res.limitMax ==>
      Index(res, req) == RenderCollection(res.paginate(EffectiveLimit(req.limit)), req.fields)
    ensures EffectiveLimit(req.limit) > res.limitMax ==> Index(res, req) == Fail(BigLimit)
  {
  }

  /**
   * A missing scope is reported before anything about the request: the
   * scoped operations fail with ScopeMissing whatever the method, id, ids or
   * limit.
   */
  lemma MissingScopeTakesPrecedence<T>(res: Resource<T>, req: Request)
    ensures GetScope(res.methods, req.segments, -2).Failure? ==>
      ShowScope(res, req) == Fail(ScopeMissing(ScopeName(SegmentText(SegmentAt(req.segments, -2)))))
    ensures GetScope(res.methods, req.segments, -1).Failure? ==>
      IndexScope(res, req) == Fail(ScopeMissing(ScopeName(SegmentText(SegmentAt(req.segments, -1)))))
  {
  }

  /**
   * With its scope found, `showScope` is the single-item path through the
   * scoped lookup and `indexScope` the list path through the scoped page:
   * their guards decide the outcome in the same order as unscoped.
   */
  lemma ScopedOperationsDelegate<T>(res: Resource<T>, req: Request, item: T)
    ensures GetScope(res.methods, req.segments, -2).Success? ==>
      var scope := GetScope(res.methods, req.segments, -2).value;
      (ShowScope(res, req) == RenderItem(item, req.fields) <==>
        req.verb == "GET" && IdAccepted(res.validId, req.routeId)
        && res.scopedFind(scope, req.routeId.value) == Some(item))
    ensures GetScope(res.methods, req.segments, -1).Success? && req.verb == "GET" && !Truthy(req.ids)
            && EffectiveLimit(req.limit) <= res.limitMax ==>
      var scope := GetScope(res.methods, req.segments, -1).value;
      IndexScope(res, req) == RenderCollection(res.scopedPaginate(scope, EffectiveLimit(req.limit)), req.fields)
    ensures GetScope(res.methods, req.segments, -2).Success? && req.verb != "GET" ==>
      ShowScope(res, req) == Fail(MethodNotAllowed)
    ensures GetScope(res.methods, req.segments, -2).Success? && req.verb == "GET" && !IdAccepted(res.validId, req.routeId) ==>
      ShowScope(res, req) == Fail(InvalidSyntax)
    ensures GetScope(res.methods, req.segments, -2).Success? && req.verb == "GET" && IdAccepted(res.validId, req.routeId)
            && res.scopedFind(GetScope(res.methods, req.segments, -2).value, req.routeId.value).None? ==>
      ShowScope(res, req) == Fail(ItemNotFound)
    ensures GetScope(res.methods, req.segments, -1).Success? && req.verb != "GET" ==>
      IndexScope(res, req) == Fail(MethodNotAllowed)
    ensures GetScope(res.methods, req.segments, -1).Success? && req.verb == "GET" && !Truthy(req.ids)
            && EffectiveLimit(req.limit) > res.limitMax ==>
      IndexScope(res, req) == Fail(BigLimit)
  {
  }

  /**
   * With its scope found and truthy `ids`, `indexScope` is the unscoped
   * id-list path: the ids go to the model's plain bulk lookup, and the
   * scoped page is never consulted.
   */
  lemma IndexScopeWithIds<T>(res: Resource<T>, req: Request, scopedPaginate: (string, int) -> seq<T>)
    requires GetScope(res.methods, req.segments, -1).Success? && req.verb == "GET" && Truthy(req.ids)
    ensures IndexScope(res, req) == ShowMultiple(res, req.ids.value, req.fields)
    ensures IndexScope(res, req) == IndexScope(res.(scopedPaginate := scopedPaginate), req)
  {
  }
}
