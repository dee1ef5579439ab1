/** Translation lookup: a dotted key is followed through a locale's JSON
    resource, falling back to the key itself; a missing locale resource falls
    back to the English one. */
module I18n {
  import opened Wrappers
  import opened Strings
  import opened Decimal

  /** A JSON value, as a locale resource file holds it. */
  datatype Json =
    | JNull
    | JBool(b: bool)
    | JNum(n: real)
    | JStr(s: string)
    | JArr(items: seq<Json>)
    | JObj(members: map<string, Json>)

  /** JavaScript truthiness: `null`, `false`, `0` and `""` are falsy. */
  predicate Truthy(v: Json) {
    match v
    case JNull => false
    case JBool(b) => b
    case JNum(n) => n != 0.0
    case JStr(s) => s != ""
    case _ => true
  }

  /** The array index a property name denotes: the names `String(i)` writes. */
  function ArrayIndex(k: string): (r: Option<nat>)
    ensures r.Some? <==> Canonical(k)
    ensures r.Some? ==> Show(r.value) == k
  {
    if Canonical(k) then ShowValue(k); Some(Value(k)) else None
  }

  /** `v[k]`: an own member of an object, or an index or the `length` of an
      array or a string; `None` (undefined) otherwise. */
  function Get(v: Json, k: string): (r: Option<Json>)
    ensures v.JNull? || v.JBool? || v.JNum? ==> r.None?
    ensures v.JObj? ==> (r.Some? <==> k in v.members)
    ensures (v.JArr? || v.JStr?) && k == "length" ==> r.Some? && r.value.JNum?
    ensures v.JArr? && k != "length" && r.Some? ==> r.value in v.items
  {
    match v
    case JObj(m) => if k in m then Some(m[k]) else None
    case JArr(items) =>
      if k == "length" then Some(JNum(|items| as real))
      else
        var i := ArrayIndex(k);
        if i.Some? && i.value < |items| then Some(items[i.value]) else None
    case JStr(s) =>
      if k == "length" then Some(JNum(|s| as real))
      else
        var i := ArrayIndex(k);
        if i.Some? && i.value < |s| then Some(JStr([s[i.value]])) else None
    case _ => None
  }

  /** One step of the walk, `obj?.[k]`: undefined and null stop it. */
  function Step(obj: Option<Json>, k: string): (r: Option<Json>)
    ensures obj.None? || obj == Some(JNull) ==> r.None?
  {
    match obj
    case None => None
    case Some(JNull) => None
    case Some(v) => Get(v, k)
  }

  /** `segments.reduce((obj, k) => obj?.[k], start)`. */
  function Walk(start: Option<Json>, segments: seq<string>): (r: Option<Json>)
    ensures start.None? ==> r.None?
    decreases |segments|
  {
    if segments == [] then start else Walk(Step(start, segments[0]), segments[1..])
  }

  /** `t(translations, key)`; `None` stands for undefined translations. */
  function T(translations: Option<Json>, key: string): (r: Json)
    ensures r == JStr(key) || (Walk(translations, Split(key, '.')) == Some(r) && Truthy(r))
  {
    var found := Walk(translations, Split(key, '.'));
    if found.Some? && Truthy(found.value) then found.value else JStr(key)
  }

  /** The locale whose resource is the fallback. */
  const DefaultLocale := "en"

  /** The fallback rule of `getTranslations`, with the resource files as a
      map from locale to parsed JSON. `None` when even the English file is
      missing: the returned promise rejects, so a caller that awaits it
      never reaches `t`. */
  function GetTranslations(files: map<string, Json>, locale: string): (r: Option<Json>)
    ensures r.Some? <==> locale in files || DefaultLocale in files
    ensures locale in files ==> r == Some(files[locale])
  {
    if locale in files then Some(files[locale])
    else if DefaultLocale in files then Some(files[DefaultLocale])
    else None
  }

  // ----- the walk -----

  /** Walking a concatenation walks the first part, then the second. */
  lemma {:induction false} WalkAppend(start: Option<Json>, a: seq<string>, b: seq<string>)
    ensures Walk(start, a + b) == Walk(Walk(start, a), b)
    decreases |a|
  {
    if a == [] {
      assert a + b == b;
    } else {
      assert (a + b)[1..] == a[1..] + b;
      WalkAppend(Step(start, a[0]), a[1..], b);
    }
  }

  // ----- t -----

  /** Following every segment of a dotted key to a truthy value yields it. */
  lemma TFollowsSegments(tree: Json, segments: seq<string>, v: Json)
    requires |segments| > 0
    requires forall i :: 0 <= i < |segments| ==> '.' !in segments[i]
    requires Walk(Some(tree), segments) == Some(v) && Truthy(v)
    ensures T(Some(tree), Join(segments, '.')) == v
  {
    SplitJoin(segments, '.');
  }

  /** A segment missing at any depth makes `t` return the key. */
  lemma TMissingSegment(translations: Option<Json>, key: string, i: nat)
    requires i < |Split(key, '.')|
    requires Walk(translations, Split(key, '.')[..i + 1]) == None
    ensures T(translations, key) == JStr(key)
  {
    var segments := Split(key, '.');
    assert segments == segments[..i + 1] + segments[i + 1..];
    WalkAppend(translations, segments[..i + 1], segments[i + 1..]);
  }

  /** A falsy value at the end of the walk, such as "", gives the key. */
  lemma TFalsyGivesKey(translations: Option<Json>, key: string, v: Json)
    requires Walk(translations, Split(key, '.')) == Some(v) && !Truthy(v)
    ensures T(translations, key) == JStr(key)
  {
  }

  /** Undefined translations give back the key: nothing fails. */
  lemma TUndefinedTranslations(key: string)
    ensures T(None, key) == JStr(key)
  {
  }

  /** A key without "." looks up one top-level entry. */
  lemma TSingleSegment(translations: Option<Json>, key: string)
    requires '.' !in key
    ensures T(translations, key)
         == (var v := Step(translations, key);
             if v.Some? && Truthy(v.value) then v.value else JStr(key))
  {
    SplitNoSeparator(key, '.');
    assert Walk(translations, [key]) == Walk(Step(translations, key), []);
  }

  /** Each "." descends one level into the object tree. */
  lemma WalkDescends(members: map<string, Json>, first: string, rest: string)
    requires '.' !in first && first in members
    ensures Walk(Some(JObj(members)), Split(first + "." + rest, '.'))
         == Walk(Some(members[first]), Split(rest, '.'))
  {
    SplitAtFirst(first, rest, '.');
  }

  // ----- getTranslations -----

  /** A locale without its own resource gets exactly what the English locale
      gets. */
  lemma GetTranslationsFallback(files: map<string, Json>, locale: string)
    ensures locale !in files ==> GetTranslations(files, locale) == GetTranslations(files, DefaultLocale)
  {
  }
}
