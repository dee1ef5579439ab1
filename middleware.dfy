/** The locale router that runs ahead of every page request: it picks a
    language from the `Accept-Language` header and either redirects to the
    language's home page or lets the request through. */
module Middleware {
  import opened Wrappers
  import opened Strings

  /** The supported languages; `En` is the default. */
  datatype Lang = En | Es

  /** `SUPPORTED`, in declaration order. */
  const Supported: seq<Lang> := [En, Es]

  /** The path segment that names a language. */
  function Code(l: Lang): string {
    match l
    case En => "en"
    case Es => "es"
  }

  /** `SUPPORTED.includes(s)`, giving the language it names. */
  function FromCode(s: string): (r: Option<Lang>)
    ensures r.Some? ==> r.value in Supported && Code(r.value) == s
    ensures (exists l :: l in Supported && Code(l) == s) ==> r.Some?
  {
    if s == "en" then Some(En) else if s == "es" then Some(Es) else None
  }

  /** `pickLang`: a missing, null or empty header gives the default; otherwise
      a case-insensitive search for "es" and then "en". Every `Lang` is in
      `Supported`, so the first ensures only records that the result type
      matches `SUPPORTED`; `PickLangSpanishIff` states the choice. */
  function PickLang(acceptLanguage: Option<string>): (l: Lang)
    ensures l in Supported
    ensures acceptLanguage.None? || acceptLanguage.value == "" ==> l == En
  {
    if acceptLanguage.None? || acceptLanguage.value == "" then En
    else
      var lower := Lower(acceptLanguage.value);
      if Includes(lower, "es") then Es
      else if Includes(lower, "en") then En
      else En
  }

  /** The first path segment, `pathname.split("/")[1]`, or `None` when the
      pathname holds no "/" at all. */
  function FirstSegment(pathname: string): (r: Option<string>)
    ensures r.Some? ==> '/' !in r.value
    ensures '/' !in pathname ==> r.None?
  {
    var parts := Split(pathname, '/');
    assert '/' !in pathname ==> |parts| == 1 by {
      if '/' !in pathname { SplitNoSeparator(pathname, '/'); }
    }
    if |parts| > 1 then Some(parts[1]) else None
  }

  /** What the middleware does with a request. `Next(lang)` lets it through,
      with `lang` the value recorded as `locals.lang` (`None`: not set). */
  datatype Response = Redirect(location: string, status: int) | Next(lang: Option<Lang>)

  /** `onRequest`, given the request's pathname and its `accept-language`
      header (`None` when the header is absent). */
  function OnRequest(pathname: string, acceptLanguage: Option<string>): (r: Response)
    ensures r.Redirect? ==> r == Redirect("/" + Code(PickLang(acceptLanguage)) + "/", 302)
    ensures r.Next? && r.lang.Some? ==> FirstSegment(pathname) == Some(Code(r.lang.value))
    ensures r.Next? && r.lang.None? ==>
              FirstSegment(pathname).Some? && Includes(FirstSegment(pathname).value, ".")
  {
    var first := FirstSegment(pathname);
    var isFile := first.Some? && Includes(first.value, ".");
    var supported := first.Some? && FromCode(first.value).Some?;
    if pathname == "/" || (!supported && !isFile) then
      Redirect("/" + Code(PickLang(acceptLanguage)) + "/", 302)
    else if supported then
      Next(FromCode(first.value))
    else
      Next(None)
  }

  // ----- pickLang -----

  /** Spanish is chosen exactly when the lowercased header contains "es",
      wherever "en" occurs; English in every other case. */
  lemma PickLangSpanishIff(acceptLanguage: Option<string>)
    ensures PickLang(acceptLanguage) == Es
        <==> acceptLanguage.Some? && Includes(Lower(acceptLanguage.value), "es")
  {
    if acceptLanguage == Some("") {
      assert !StartsWith(Lower(""), "es");
    }
  }

  /** The header's case does not matter. */
  lemma PickLangCaseInsensitive(header: string)
    ensures PickLang(Some(header)) == PickLang(Some(Lower(header)))
  {
    LowerIdempotent(header);
  }

  /** A browser that prefers English but also accepts Spanish gets Spanish. */
  lemma PickLangIgnoresPreferenceOrder()
    ensures PickLang(Some("en-US,en;q=0.9,es;q=0.8")) == Es
  {
    var lower := Lower("en-US,en;q=0.9,es;q=0.8");
    assert lower[15..17] == "es";
    IncludesAt(lower, "es", 15);
  }

  // ----- first segment -----

  /** The first segment of "/seg" or "/seg/..." is `seg`. */
  lemma {:induction false} FirstSegmentOf(seg: string, rest: string)
    requires '/' !in seg
    requires rest == [] || rest[0] == '/'
    ensures FirstSegment("/" + seg + rest) == Some(seg)
  {
    var p := "/" + seg + rest;
    SplitAtFirst([], seg + rest, '/');
    assert p == [] + ['/'] + (seg + rest);
    if rest == [] {
      SplitNoSeparator(seg, '/');
      assert seg + rest == seg;
    } else {
      SplitAtFirst(seg, rest[1..], '/');
      assert seg + rest == seg + ['/'] + rest[1..];
    }
  }

  // ----- onRequest -----

  /** A request is redirected exactly when its first segment is missing, or is
      neither a language code nor contains ".".
      The `pathname === "/"` test adds nothing: the first segment of "/" is
      the empty string. */
  lemma RedirectIff(pathname: string, acceptLanguage: Option<string>)
    ensures OnRequest(pathname, acceptLanguage).Redirect?
        <==> (FirstSegment(pathname).None?
              || (FromCode(FirstSegment(pathname).value).None?
                  && !Includes(FirstSegment(pathname).value, ".")))
  {
    FirstSegmentOfRoot();
    assert !Includes("", ".") by { assert !StartsWith("", "."); }
  }

  /** The root path always redirects. */
  lemma RootRedirects(acceptLanguage: Option<string>)
    ensures OnRequest("/", acceptLanguage) == Redirect("/" + Code(PickLang(acceptLanguage)) + "/", 302)
  {
  }

  /** The first segment of the root path is the empty string. */
  lemma FirstSegmentOfRoot()
    ensures FirstSegment("/") == Some("")
  {
    FirstSegmentOf("", "");
    assert "/" + "" + "" == "/";
  }

  /** No language code contains a ".". */
  lemma CodeHasNoDot(l: Lang)
    ensures !Includes(Code(l), ".")
  {
    IncludesIff(Code(l), ".");
    forall i: nat | i + 1 <= |Code(l)|
      ensures !OccursAt(Code(l), ".", i)
    {
      assert Code(l)[i..i + 1] == [Code(l)[i]];
    }
  }

  /** A path under a language passes through with that language recorded. */
  lemma LocalePathPassesThrough(pathname: string, acceptLanguage: Option<string>, l: Lang)
    requires FirstSegment(pathname) == Some(Code(l))
    ensures OnRequest(pathname, acceptLanguage) == Next(Some(l))
  {
    FirstSegmentOfRoot();
  }

  /** A path whose first segment names a file passes through untouched. */
  lemma FilePathPassesThrough(pathname: string, acceptLanguage: Option<string>, first: string)
    requires FirstSegment(pathname) == Some(first)
    requires Includes(first, ".")
    ensures OnRequest(pathname, acceptLanguage) == Next(None)
  {
    FirstSegmentOfRoot();
    CodeHasNoDot(En);
    CodeHasNoDot(Es);
  }

  /** Only the first segment decides: below a directory that is neither a
      language nor contains ".", every path is redirected to a home page,
      a file such as "/images/logo.png" included. */
  lemma NestedPathRedirects(seg: string, rest: string, acceptLanguage: Option<string>)
    requires '/' !in seg && !Includes(seg, ".") && FromCode(seg).None?
    requires rest == [] || rest[0] == '/'
    ensures OnRequest("/" + seg + rest, acceptLanguage)
         == Redirect("/" + Code(PickLang(acceptLanguage)) + "/", 302)
  {
    FirstSegmentOf(seg, rest);
  }

  /** No redirect loop: whatever header the follow-up request carries, the
      redirect target passes through with its language recorded. */
  lemma NoRedirectLoop(pathname: string, acceptLanguage: Option<string>, nextHeader: Option<string>)
    requires OnRequest(pathname, acceptLanguage).Redirect?
    ensures OnRequest(OnRequest(pathname, acceptLanguage).location, nextHeader)
         == Next(Some(PickLang(acceptLanguage)))
  {
    var l := PickLang(acceptLanguage);
    FirstSegmentOf(Code(l), "/");
    LocalePathPassesThrough("/" + Code(l) + "/", nextHeader, l);
  }
}
