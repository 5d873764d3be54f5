/** The extraction and orchestration logic of BacklinkChecker.php: pattern
    validation, the link and image scans over the parsed document, the
    nofollow check, and `getBacklinks`, which fetches a page and scans it
    only when the fetch succeeded. */
module Checker {
  import opened Wrappers
  import opened PhpStrings
  import opened Externals
  import opened BacklinkValue
  import opened HttpResponseValue
  import opened BacklinkDataValue

  /** The exceptions that leave the checker, by PHP class. */
  datatype Error =
    | InvalidArgument(message: string)
    | UnexpectedValue(message: string)
    | Runtime(message: string)  // a fetcher's RuntimeException, carried out of `browsePage`

  const InvalidPatternMessage: string := "Invalid pattern. Check the RegExp syntax."
  const ParseFailedMessage: string := "Failed to parse HTML"

  // ---------------------------------------------------------------- nofollow

  /** A `rel` value marks a link nofollow when one of its pieces between
      single spaces, trimmed and lower-cased, is "nofollow". */
  predicate IsNoFollow(rel: string) {
    var tokens := Explode(rel);
    exists i :: 0 <= i < |tokens| && IsNoFollowToken(tokens[i])
  }

  /** One exploded piece of `rel`, compared after `trim` and `strtolower`. */
  predicate IsNoFollowToken(token: string) {
    ToLower(Trim(token)) == "nofollow"
  }

  /** The flag computed inline while scanning a link: false without a `rel`
      attribute, otherwise set by a loop over the exploded tokens. */
  method NoFollowFlag(rel: Option<string>) returns (noFollow: bool)
    ensures noFollow <==> rel.Some? && IsNoFollow(rel.value)
  {
    noFollow := false;
    if rel.Some? {
      var relList := Explode(rel.value);
      var i := 0;
      while i < |relList|
        invariant 0 <= i <= |relList|
        invariant noFollow <==> exists k :: 0 <= k < i && IsNoFollowToken(relList[k])
      {
        if ToLower(Trim(relList[i])) == "nofollow" {
          noFollow := true;
        }
        i := i + 1;
      }
    }
  }

  /** For a single token the check is "trims and lower-cases to nofollow". */
  lemma NoFollowSingleToken(t: string)
    requires ' ' !in t
    ensures IsNoFollow(t) <==> ToLower(Trim(t)) == "nofollow"
  {
    ExplodeNoSpace(t);
    assert Explode(t)[0] == t;
  }

  /** Joining two `rel` values with a space is a disjunction of the checks. */
  lemma NoFollowJoin(a: string, b: string)
    ensures IsNoFollow(a + " " + b) <==> IsNoFollow(a) || IsNoFollow(b)
  {
    ExplodeJoin(a, b);
    SomeInConcat(Explode(a), Explode(b), IsNoFollowToken);
  }

  /** Some element of a concatenation satisfies `p` exactly when some element
      of one of the parts does. */
  lemma SomeInConcat(ta: seq<string>, tb: seq<string>, p: string -> bool)
    ensures (exists i :: 0 <= i < |ta + tb| && p((ta + tb)[i]))
            <==> (exists i :: 0 <= i < |ta| && p(ta[i])) || (exists i :: 0 <= i < |tb| && p(tb[i]))
  {
    var t := ta + tb;
    if exists i :: 0 <= i < |t| && p(t[i]) {
      var i :| 0 <= i < |t| && p(t[i]);
      if i < |ta| {
        assert t[i] == ta[i];
      } else {
        assert t[i] == tb[i - |ta|];
      }
    }
    if exists i :: 0 <= i < |ta| && p(ta[i]) {
      var i :| 0 <= i < |ta| && p(ta[i]);
      assert t[i] == ta[i];
    }
    if exists i :: 0 <= i < |tb| && p(tb[i]) {
      var i :| 0 <= i < |tb| && p(tb[i]);
      assert t[|ta| + i] == tb[i];
    }
  }

  lemma TrimmedNoFollow()
    ensures Trim("nofollow") == "nofollow"
    ensures ToLower("nofollow") == "nofollow"
  {
    TrimOfTrimmed("nofollow");
  }

  /** A token that lower-cases to "nofollow" passes: it has no space and
      nothing to trim. */
  lemma TokenAccepted(t: string)
    requires ToLower(t) == "nofollow"
    ensures IsNoFollow(t)
  {
    forall i | 0 <= i < |t| ensures t[i] != ' ' && !IsTrimChar(t[i]) {
      LowerOfLetter(t, i);
    }
    TrimOfTrimmed(t);
    NoFollowSingleToken(t);
  }

  /** Where the lower-cased token holds a letter, the token holds a letter. */
  lemma LowerOfLetter(t: string, i: nat)
    requires ToLower(t) == "nofollow" && i < |t|
    ensures 'a' <= LowerChar(t[i]) <= 'z'
    ensures t[i] != ' ' && !IsTrimChar(t[i])
  {
    var n := "nofollow";
    assert 'a' <= n[i] <= 'z';
  }

  /** A space-free token with surrounding trim characters already removed
      fails when it has the wrong length. */
  lemma TokenRejectedByLength(t: string)
    requires ' ' !in t && Trim(t) == t && |t| != 8
    ensures !IsNoFollow(t)
  {
    NoFollowSingleToken(t);
  }

  /** The value "nofollow" alone marks a link nofollow. */
  lemma NoFollowPlain()
    ensures IsNoFollow("nofollow")
  {
    TrimmedNoFollow();
    TokenAccepted("nofollow");
  }

  /** So does the token among any others, before or after it, as in
      "external nofollow". */
  lemma NoFollowAmongOthers(other: string)
    ensures IsNoFollow(other + " " + "nofollow")
    ensures IsNoFollow("nofollow" + " " + other)
  {
    NoFollowPlain();
    NoFollowJoin(other, "nofollow");
    NoFollowJoin("nofollow", other);
  }

  /** The comparison ignores ASCII case. */
  lemma NoFollowMixedCase()
    ensures IsNoFollow("NoFollow")
  {
    MixedCaseLowered();
    TokenAccepted("NoFollow");
  }

  lemma MixedCaseLowered()
    ensures ToLower("NoFollow") == "nofollow"
  {
  }

  /** A space-free token without surrounding trim characters fails when its
      first character does not lower-case to 'n'. */
  lemma TokenRejectedByFirst(t: string)
    requires ' ' !in t && |t| > 0 && !IsTrimChar(t[0]) && !IsTrimChar(t[|t| - 1])
    requires LowerChar(t[0]) != 'n'
    ensures !IsNoFollow(t)
  {
    NoFollowSingleToken(t);
    TrimOfTrimmed(t);
    assert ToLower(t)[0] == LowerChar(t[0]);
  }

  /** The negative cases of the tests: an unrelated value ... */
  lemma NoFollowRejectsOther()
    ensures !IsNoFollow("external")
  {
    TokenRejectedByFirst("external");
  }

  /** ... and the empty value. */
  lemma NoFollowRejectsEmpty()
    ensures !IsNoFollow("")
  {
    NoFollowSingleToken("");
  }

  /** Only a space separates tokens: a tab between them does not, so the
      token below is not recognised. */
  lemma NoFollowTabIsNotSeparator()
    ensures !IsNoFollow("external\tnofollow")
  {
    var t := "external\tnofollow";
    assert ' ' !in t;
    TrimOfTrimmed(t);
    TokenRejectedByLength(t);
  }

  // ------------------------------------------------------------------ scans

  /** The parser's `find("tag[attr]")`: the elements with that tag name that
      carry the attribute, in document order. */
  function Find(dom: seq<Elem>, tag: string, attr: string): (r: seq<Elem>)
    ensures |r| <= |dom|
    ensures forall e :: e in r ==> e in dom && e.name == tag && attr in e.attrs
    ensures forall e :: e in dom && e.name == tag && attr in e.attrs ==> e in r
  {
    if |dom| == 0 then []
    else (if dom[0].name == tag && attr in dom[0].attrs then [dom[0]] else []) + Find(dom[1..], tag, attr)
  }

  /** `find` preserves document order. */
  lemma {:induction false} FindAppend(a: seq<Elem>, b: seq<Elem>, tag: string, attr: string)
    ensures Find(a + b, tag, attr) == Find(a, tag, attr) + Find(b, tag, attr)
  {
    if |a| > 0 {
      assert (a + b)[0] == a[0];
      assert (a + b)[1..] == a[1..] + b;
      FindAppend(a[1..], b, tag, attr);
    } else {
      assert a + b == b;
    }
  }

  /** The two scans differ only in the selector, the attribute holding the
      URL and the record they build. */
  datatype Kind = Link | Image {
    function Tag(): string {
      if Link? then "a" else "img"
    }

    function UrlAttr(): string {
      if Link? then "href" else "src"
    }
  }

  /** The test inside each scan loop: `isset($link->href)` (or `src`) and
      `preg_match($pattern, …) === 1`. */
  predicate Selected(env: Env, pattern: string, kind: Kind, e: Elem) {
    kind.UrlAttr() in e.attrs && Matches(env, pattern, e.attrs[kind.UrlAttr()])
  }

  /** An element of the document that the scan of `kind` reports. */
  predicate IsMatching(env: Env, pattern: string, kind: Kind, e: Elem) {
    e.name == kind.Tag() && Selected(env, pattern, kind, e)
  }

  function AttrOr(e: Elem, name: string, default: string): string {
    if name in e.attrs then e.attrs[name] else default
  }

  /** The record built for a selected element. A link's anchor is its plain
      text trimmed and then entity-decoded, its target the raw attribute or
      ""; an image's anchor is its decoded, trimmed `alt` or "", and it is
      never nofollow and has no target. */
  function Record(env: Env, kind: Kind, e: Elem): (r: Backlink)
    requires kind.UrlAttr() in e.attrs
    ensures r.backlink == e.attrs[kind.UrlAttr()] && r.tag == kind.Tag()
    ensures r.noFollow ==> kind.Link? && "rel" in e.attrs && IsNoFollow(e.attrs["rel"])
    ensures r.target != "" ==> kind.Link? && "target" in e.attrs && r.target == e.attrs["target"]
  {
    match kind
    case Link =>
      Backlink(e.attrs["href"], env.decode(Trim(e.plaintext)),
               "rel" in e.attrs && IsNoFollow(e.attrs["rel"]), AttrOr(e, "target", ""), "a")
    case Image =>
      Backlink(e.attrs["src"], if "alt" in e.attrs then env.decode(Trim(e.attrs["alt"])) else "", false, "", "img")
  }

  /** The `foreach` over the elements `find` returned, appending one record
      per selected element. */
  function Collect(env: Env, pattern: string, kind: Kind, list: seq<Elem>): (r: seq<Backlink>)
    ensures |r| <= |list|
    ensures forall k :: 0 <= k < |r| ==> r[k].tag == kind.Tag() && Matches(env, pattern, r[k].backlink)
    ensures kind.Image? ==> forall k :: 0 <= k < |r| ==> !r[k].noFollow && r[k].target == ""
  {
    if |list| == 0 then []
    else
      var e := list[0];
      (if Selected(env, pattern, kind, e) then [Record(env, kind, e)] else []) + Collect(env, pattern, kind, list[1..])
  }

  /** `scanLinks`: over `find("a[href]")`. */
  function ScanLinks(env: Env, dom: seq<Elem>, pattern: string): (r: seq<Backlink>)
    ensures forall k :: 0 <= k < |r| ==> r[k].tag == "a" && Matches(env, pattern, r[k].backlink)
  {
    Collect(env, pattern, Link, Find(dom, "a", "href"))
  }

  /** `scanImages`: over `find("img[src]")`. */
  function ScanImages(env: Env, dom: seq<Elem>, pattern: string): (r: seq<Backlink>)
    ensures forall k :: 0 <= k < |r| ==>
              r[k].tag == "img" && !r[k].noFollow && r[k].target == "" && Matches(env, pattern, r[k].backlink)
  {
    Collect(env, pattern, Image, Find(dom, "img", "src"))
  }

  /** The scan of `kind` over a document. */
  function Scan(env: Env, dom: seq<Elem>, pattern: string, kind: Kind): seq<Backlink> {
    if kind.Link? then ScanLinks(env, dom, pattern) else ScanImages(env, dom, pattern)
  }

  /** Every record the loop builds comes from a selected element of the list. */
  lemma {:induction false} CollectSound(env: Env, pattern: string, kind: Kind, list: seq<Elem>)
    ensures forall b :: b in Collect(env, pattern, kind, list) ==>
              exists e :: e in list && Selected(env, pattern, kind, e) && b == Record(env, kind, e)
  {
    if |list| > 0 {
      var e := list[0];
      var rest := Collect(env, pattern, kind, list[1..]);
      CollectSound(env, pattern, kind, list[1..]);
      forall b | b in Collect(env, pattern, kind, list)
        ensures exists x :: x in list && Selected(env, pattern, kind, x) && b == Record(env, kind, x)
      {
        if Selected(env, pattern, kind, e) && b == Record(env, kind, e) {
          assert e in list;
        } else {
          assert b in rest;
          var x :| x in list[1..] && Selected(env, pattern, kind, x) && b == Record(env, kind, x);
          assert x in list;
        }
      }
    }
  }

  /** Every selected element of the list gets its record. */
  lemma {:induction false} CollectComplete(env: Env, pattern: string, kind: Kind, list: seq<Elem>)
    ensures forall e :: e in list && Selected(env, pattern, kind, e) ==> Record(env, kind, e) in Collect(env, pattern, kind, list)
  {
    if |list| > 0 {
      CollectComplete(env, pattern, kind, list[1..]);
      forall e | e in list && Selected(env, pattern, kind, e)
        ensures Record(env, kind, e) in Collect(env, pattern, kind, list)
      {
        if e != list[0] {
          assert e in list[1..];
        }
      }
    }
  }

  /** The loop visits the list in order. */
  lemma {:induction false} CollectAppend(env: Env, pattern: string, kind: Kind, a: seq<Elem>, b: seq<Elem>)
    ensures Collect(env, pattern, kind, a + b) == Collect(env, pattern, kind, a) + Collect(env, pattern, kind, b)
  {
    if |a| > 0 {
      assert (a + b)[1..] == a[1..] + b;
      CollectAppend(env, pattern, kind, a[1..], b);
    } else {
      assert a + b == b;
    }
  }

  /** A scan reports exactly the matching elements of the document: every
      record comes from one, and each one has its record. */
  lemma ScanExact(env: Env, dom: seq<Elem>, pattern: string, kind: Kind)
    ensures forall b :: b in Scan(env, dom, pattern, kind) ==>
              exists e :: e in dom && IsMatching(env, pattern, kind, e) && b == Record(env, kind, e)
    ensures forall e :: e in dom && IsMatching(env, pattern, kind, e) ==> Record(env, kind, e) in Scan(env, dom, pattern, kind)
  {
    var found := Find(dom, kind.Tag(), kind.UrlAttr());
    assert Scan(env, dom, pattern, kind) == Collect(env, pattern, kind, found);
    CollectSound(env, pattern, kind, found);
    CollectComplete(env, pattern, kind, found);
    forall b | b in Scan(env, dom, pattern, kind)
      ensures exists e :: e in dom && IsMatching(env, pattern, kind, e) && b == Record(env, kind, e)
    {
      var e :| e in found && Selected(env, pattern, kind, e) && b == Record(env, kind, e);
      assert e in dom && IsMatching(env, pattern, kind, e);
    }
    forall e | e in dom && IsMatching(env, pattern, kind, e)
      ensures Record(env, kind, e) in Scan(env, dom, pattern, kind)
    {
      assert e in found;
    }
  }

  /** Scans follow document order: scanning two parts of a document one after
      the other gives the scan of the whole. */
  lemma ScanAppend(env: Env, a: seq<Elem>, b: seq<Elem>, pattern: string, kind: Kind)
    ensures Scan(env, a + b, pattern, kind) == Scan(env, a, pattern, kind) + Scan(env, b, pattern, kind)
  {
    FindAppend(a, b, kind.Tag(), kind.UrlAttr());
    CollectAppend(env, pattern, kind, Find(a, kind.Tag(), kind.UrlAttr()), Find(b, kind.Tag(), kind.UrlAttr()));
  }

  /** A pattern PHP or PCRE rejects selects nothing: both scans come back
      empty, whatever the document. */
  lemma InvalidPatternScansNothing(env: Env, dom: seq<Elem>, pattern: string, kind: Kind)
    requires !HasDelimiter(pattern) || !env.compiles(pattern)
    ensures Scan(env, dom, pattern, kind) == []
  {
    var r := Scan(env, dom, pattern, kind);
    if |r| > 0 {
      UncompiledNeverMatches(env, pattern, r[0].backlink);
      assert false;
    }
  }

  /** The link scan of a one-element document, written out field by field. */
  lemma ScanLinksSingle(env: Env, e: Elem, pattern: string)
    ensures ScanLinks(env, [e], pattern)
            == if e.name == "a" && "href" in e.attrs && Matches(env, pattern, e.attrs["href"]) then
                 [Backlink(e.attrs["href"], env.decode(Trim(e.plaintext)),
                           "rel" in e.attrs && IsNoFollow(e.attrs["rel"]),
                           if "target" in e.attrs then e.attrs["target"] else "", "a")]
               else []
  {
    assert [e][1..] == [];
  }

  /** The image scan of a one-element document, written out field by field. */
  lemma ScanImagesSingle(env: Env, e: Elem, pattern: string)
    ensures ScanImages(env, [e], pattern)
            == if e.name == "img" && "src" in e.attrs && Matches(env, pattern, e.attrs["src"]) then
                 [Backlink(e.attrs["src"], if "alt" in e.attrs then env.decode(Trim(e.attrs["alt"])) else "",
                           false, "", "img")]
               else []
  {
    assert [e][1..] == [];
  }

  // ------------------------------------------------------------- extraction

  /** `getRawBacklink`: validate the pattern, short-circuit on empty input,
      parse, then the link records followed by the image records. */
  function GetRawBacklink(env: Env, html: string, pattern: string, scanLinks: bool, scanImages: bool)
    : (r: Result<seq<Backlink>, Error>)
    ensures r == Failure(InvalidArgument(InvalidPatternMessage)) <==> !ValidPattern(env, pattern)
    ensures r == Failure(UnexpectedValue(ParseFailedMessage))
            <==> ValidPattern(env, pattern) && |html| > 0 && env.parse(html).None?
    ensures r.Failure? ==> r.error == InvalidArgument(InvalidPatternMessage) || r.error == UnexpectedValue(ParseFailedMessage)
    ensures ValidPattern(env, pattern) && |html| == 0 ==> r == Success([])
    ensures !scanLinks && !scanImages && r.Success? ==> r.value == []
    ensures r.Success? ==> forall k :: 0 <= k < |r.value| ==>
              Matches(env, pattern, r.value[k].backlink)
              && ((r.value[k].tag == "a" && scanLinks) || (r.value[k].tag == "img" && scanImages))
    ensures r.Success? ==> forall i, j :: 0 <= i < j < |r.value| && r.value[i].tag == "img" ==> r.value[j].tag == "img"
  {
    if !ValidPattern(env, pattern) then Failure(InvalidArgument(InvalidPatternMessage))
    else if |html| <= 0 || |pattern| <= 0 then Success([])
    else
      match env.parse(html)
      case None => Failure(UnexpectedValue(ParseFailedMessage))
      case Some(dom) =>
        var links := if scanLinks then ScanLinks(env, dom, pattern) else [];
        var images := if scanImages then ScanImages(env, dom, pattern) else [];
        Success(links + images)
  }

  /** Once the pattern is valid and the page parsed, the result is the link
      scan (when asked for) followed by the image scan (when asked for). */
  lemma RawBacklinkParsed(env: Env, html: string, pattern: string, scanLinks: bool, scanImages: bool, dom: seq<Elem>)
    requires ValidPattern(env, pattern) && |html| > 0 && env.parse(html) == Some(dom)
    ensures GetRawBacklink(env, html, pattern, scanLinks, scanImages)
            == Success((if scanLinks then Scan(env, dom, pattern, Link) else [])
                       + (if scanImages then Scan(env, dom, pattern, Image) else []))
  {
    ValidPatternNonEmpty(env, pattern);
  }

  /** With only the link scan on, a parsed page gives exactly its link scan. */
  lemma OnlyLinks(env: Env, html: string, pattern: string, dom: seq<Elem>)
    requires ValidPattern(env, pattern) && |html| > 0 && env.parse(html) == Some(dom)
    ensures GetRawBacklink(env, html, pattern, true, false) == Success(ScanLinks(env, dom, pattern))
  {
    RawBacklinkParsed(env, html, pattern, true, false, dom);
    assert ScanLinks(env, dom, pattern) + [] == ScanLinks(env, dom, pattern);
  }

  /** With only the image scan on, a parsed page gives exactly its image scan. */
  lemma OnlyImages(env: Env, html: string, pattern: string, dom: seq<Elem>)
    requires ValidPattern(env, pattern) && |html| > 0 && env.parse(html) == Some(dom)
    ensures GetRawBacklink(env, html, pattern, false, true) == Success(ScanImages(env, dom, pattern))
  {
    RawBacklinkParsed(env, html, pattern, false, true, dom);
    assert [] + ScanImages(env, dom, pattern) == ScanImages(env, dom, pattern);
  }

  /** The example texts are left as they are by `trim` and hold no entity. */
  lemma PlainTextKept(text: string)
    requires text == "Test Link" || text == "Test" || text == "Test Image"
    ensures Trim(text) == text && '&' !in text
  {
    TrimOfTrimmed(text);
  }

  /** The empty pattern and "abc" are rejected before anything else, even
      for an empty page. */
  lemma UndelimitedPatternsThrow(env: Env, html: string, scanLinks: bool, scanImages: bool)
    ensures GetRawBacklink(env, html, "", scanLinks, scanImages) == Failure(InvalidArgument(InvalidPatternMessage))
    ensures GetRawBacklink(env, html, "abc", scanLinks, scanImages) == Failure(InvalidArgument(InvalidPatternMessage))
  {
    UndelimitedInvalid(env);
  }

  /** A page holding one link with only an `href` and a plain anchor text
      gives one record: that URL, that text, not nofollow, no target. */
  lemma PlainLink(env: Env, html: string, pattern: string, url: string, text: string)
    requires |html| > 0 && ValidPattern(env, pattern) && DecodesPlainTextAsIs(env)
    requires env.parse(html) == Some([Elem("a", map["href" := url], text)])
    requires Matches(env, pattern, url)
    requires |text| > 0 ==> !IsTrimChar(text[0]) && !IsTrimChar(text[|text| - 1])
    requires '&' !in text
    ensures GetRawBacklink(env, html, pattern, true, false) == Success([Backlink(url, text, false, "", "a")])
  {
    var e := Elem("a", map["href" := url], text);
    assert ScanLinks(env, [e], pattern) == [Backlink(url, text, false, "", "a")] by {
      TrimOfTrimmed(text);
      assert env.decode(Trim(text)) == text;
      assert "rel" !in e.attrs && "target" !in e.attrs;
      ScanLinksSingle(env, e, pattern);
    }
    OnlyLinks(env, html, pattern, [e]);
  }

  /** A link with `rel` and `target` attributes gives one record that carries
      the raw target and the nofollow flag of its `rel`. */
  lemma AnnotatedLink(env: Env, html: string, pattern: string, url: string, text: string, rel: string, target: string)
    requires |html| > 0 && ValidPattern(env, pattern) && DecodesPlainTextAsIs(env)
    requires env.parse(html) == Some([Elem("a", map["href" := url, "rel" := rel, "target" := target], text)])
    requires Matches(env, pattern, url)
    requires |text| > 0 ==> !IsTrimChar(text[0]) && !IsTrimChar(text[|text| - 1])
    requires '&' !in text
    ensures GetRawBacklink(env, html, pattern, true, false) == Success([Backlink(url, text, IsNoFollow(rel), target, "a")])
  {
    var e := Elem("a", map["href" := url, "rel" := rel, "target" := target], text);
    assert ScanLinks(env, [e], pattern) == [Backlink(url, text, IsNoFollow(rel), target, "a")] by {
      TrimOfTrimmed(text);
      assert env.decode(Trim(text)) == text;
      assert e.attrs["href"] == url && e.attrs["rel"] == rel && e.attrs["target"] == target;
      ScanLinksSingle(env, e, pattern);
    }
    OnlyLinks(env, html, pattern, [e]);
  }

  /** The link of the raw-backlink tag test (tests/BacklinkCheckerTest.php:62-73):
      `<a href="https://example.com/test">Test Link</a>`, with only the link
      scan on, gives exactly one record. */
  lemma LinkExample(env: Env, html: string, pattern: string)
    requires |html| > 0 && ValidPattern(env, pattern) && DecodesPlainTextAsIs(env)
    requires env.parse(html) == Some([Elem("a", map["href" := "https://example.com/test"], "Test Link")])
    requires Matches(env, pattern, "https://example.com/test")
    ensures GetRawBacklink(env, html, pattern, true, false)
            == Success([Backlink("https://example.com/test", "Test Link", false, "", "a")])
  {
    PlainLink(env, html, pattern, "https://example.com/test", "Test Link");
  }

  /** `rel="nofollow" target="_blank"` gives a nofollow record with that
      target. */
  lemma NoFollowTargetExample(env: Env, html: string, pattern: string)
    requires |html| > 0 && ValidPattern(env, pattern) && DecodesPlainTextAsIs(env)
    requires env.parse(html)
             == Some([Elem("a", map["href" := "https://example.com", "rel" := "nofollow", "target" := "_blank"], "Test")])
    requires Matches(env, pattern, "https://example.com")
    ensures GetRawBacklink(env, html, pattern, true, false)
            == Success([Backlink("https://example.com", "Test", true, "_blank", "a")])
  {
    var e := Elem("a", map["href" := "https://example.com", "rel" := "nofollow", "target" := "_blank"], "Test");
    assert env.decode(Trim("Test")) == "Test" by { PlainTextKept("Test"); }
    assert IsNoFollow(e.attrs["rel"]) by { NoFollowPlain(); }
    ScanLinksSingle(env, e, pattern);
    OnlyLinks(env, html, pattern, [e]);
  }

  /** The image of the raw-backlink tag test (tests/BacklinkCheckerTest.php:75-82),
      with only the image scan on: its alt text is the anchor, it is not
      nofollow and has no target. */
  lemma ImageExample(env: Env, html: string, pattern: string)
    requires |html| > 0 && ValidPattern(env, pattern) && DecodesPlainTextAsIs(env)
    requires env.parse(html) == Some([Elem("img", map["src" := "https://example.com/image.jpg", "alt" := "Test Image"], "")])
    requires Matches(env, pattern, "https://example.com/image.jpg")
    ensures GetRawBacklink(env, html, pattern, false, true)
            == Success([Backlink("https://example.com/image.jpg", "Test Image", false, "", "img")])
  {
    var e := Elem("img", map["src" := "https://example.com/image.jpg", "alt" := "Test Image"], "");
    assert env.decode(Trim("Test Image")) == "Test Image" by { PlainTextKept("Test Image"); }
    ScanImagesSingle(env, e, pattern);
    OnlyImages(env, html, pattern, [e]);
  }

  /** An empty `href` is reported, with an empty URL, whenever the pattern
      matches the empty string: nothing filters empty URLs out. */
  lemma EmptyHrefReported(env: Env, html: string, pattern: string)
    requires |html| > 0 && ValidPattern(env, pattern) && DecodesPlainTextAsIs(env)
    requires env.parse(html) == Some([Elem("a", map["href" := ""], "")])
    requires Matches(env, pattern, "")
    ensures GetRawBacklink(env, html, pattern, true, false) == Success([Backlink("", "", false, "", "a")])
  {
    PlainLink(env, html, pattern, "", "");
  }

  // ---------------------------------------------------------- orchestration

  /** `getBacklinks`: fetch through the strategy's `browsePage` (whose
      exceptions pass through), and extract only from a successful response. */
  function GetBacklinks(env: Env, browsePage: (string, bool) -> Result<HttpResponse, Error>,
                        url: string, pattern: string, scanLinks: bool, scanImages: bool, makeScreenshot: bool)
    : (r: Result<BacklinkData, Error>)
    ensures browsePage(url, makeScreenshot).Failure? ==> r == Failure(browsePage(url, makeScreenshot).error)
    ensures r.Success? ==> browsePage(url, makeScreenshot) == Success(r.value.response)
    ensures browsePage(url, makeScreenshot).Success? && !browsePage(url, makeScreenshot).value.success
            ==> r.Success? && r.value.backlinks == []
    ensures browsePage(url, makeScreenshot).Success? && browsePage(url, makeScreenshot).value.success ==>
              var raw := GetRawBacklink(env, browsePage(url, makeScreenshot).value.response, pattern, scanLinks, scanImages);
              && (r.Success? <==> raw.Success?)
              && (r.Success? ==> r.value.backlinks == raw.value)
              && (r.Failure? ==> r.error == raw.error)
  {
    match browsePage(url, makeScreenshot)
    case Failure(e) => Failure(e)
    case Success(response) =>
      if !response.GetSuccess() then Success(BacklinkData(response, []))
      else
        match GetRawBacklink(env, response.GetResponse(), pattern, scanLinks, scanImages)
        case Failure(e) => Failure(e)
        case Success(backlinks) => Success(BacklinkData(response, backlinks))
  }

  /** A failed fetch gives the response with no backlinks, whatever the
      pattern: the pattern is not even validated. */
  lemma FailedFetchIgnoresPattern(env: Env, browsePage: (string, bool) -> Result<HttpResponse, Error>,
                                  url: string, pattern: string, scanLinks: bool, scanImages: bool, makeScreenshot: bool)
    requires browsePage(url, makeScreenshot).Success? && !browsePage(url, makeScreenshot).value.success
    requires !ValidPattern(env, pattern)
    ensures GetBacklinks(env, browsePage, url, pattern, scanLinks, scanImages, makeScreenshot)
            == Success(BacklinkData(browsePage(url, makeScreenshot).value, []))
  {
  }

  /** A successful fetch with an invalid pattern raises the pattern error. */
  lemma SuccessfulFetchChecksPattern(env: Env, browsePage: (string, bool) -> Result<HttpResponse, Error>,
                                     url: string, pattern: string, scanLinks: bool, scanImages: bool, makeScreenshot: bool)
    requires browsePage(url, makeScreenshot).Success? && browsePage(url, makeScreenshot).value.success
    requires !ValidPattern(env, pattern)
    ensures GetBacklinks(env, browsePage, url, pattern, scanLinks, scanImages, makeScreenshot)
            == Failure(InvalidArgument(InvalidPatternMessage))
  {
  }

  /** A 404 page yields its response, still reporting 404 and failure, and
      no backlinks, even under the invalid pattern "abc". */
  lemma NotFoundPage(env: Env, browsePage: (string, bool) -> Result<HttpResponse, Error>, url: string)
    requires browsePage(url, false) == Success(HttpResponse(url, 404, [], "Not Found", false, []))
    ensures var r := GetBacklinks(env, browsePage, url, "abc", true, false, false);
            && r.Success?
            && r.value.GetResponse().GetStatusCode() == 404
            && !r.value.GetResponse().GetSuccess()
            && r.value.GetBacklinks() == []
  {
  }

  /** A successful fetch of a page holding one matching link gives that
      response with the link's single record. */
  lemma FetchedPageScanned(env: Env, browsePage: (string, bool) -> Result<HttpResponse, Error>,
                           url: string, pattern: string, response: HttpResponse)
    requires browsePage(url, false) == Success(response)
    requires response.success && |response.response| > 0
    requires ValidPattern(env, pattern) && DecodesPlainTextAsIs(env)
    requires env.parse(response.response) == Some([Elem("a", map["href" := "https://example.com"], "Test")])
    requires Matches(env, pattern, "https://example.com")
    ensures GetBacklinks(env, browsePage, url, pattern, true, false, false)
            == Success(BacklinkData(response, [Backlink("https://example.com", "Test", false, "", "a")]))
  {
    PlainLink(env, response.response, pattern, "https://example.com", "Test");
  }
}
