/**
 The URL half of confluence_export.py: `identify_url_pattern` sorts a page URL
 into one of four shapes, the `extract_page_id_*` functions pull the page id
 out of it, and `convert_to_api_url` builds the REST URL that exports the
 page. A URL is taken as the components `urlparse` splits it into; the
 regular expressions are written as explicit scanners.
 */
module Confluence {

  import opened Wrappers
  import opened Text

  // ---------------------------------------------------------------------------
  // URLs and patterns
  // ---------------------------------------------------------------------------

  /** A URL as `urlparse` splits it: `scheme://netloc path ?query`. */
  datatype Url = Url(scheme: string, netloc: string, path: string, query: string)

  /** The URL as written, which the regular-expression extractors search,
      put back together from its parts: `scheme:` only when there is a
      scheme, and `//netloc` only when there is a host. */
  function UrlText(u: Url): (r: string)
    ensures u.scheme != [] && u.netloc != [] ==>
              r == u.scheme + "://" + u.netloc + u.path + (if u.query == [] then "" else "?" + u.query)
    ensures u.scheme == [] && u.netloc == [] ==> r == u.path + (if u.query == [] then "" else "?" + u.query)
  {
    (if u.scheme == [] then "" else u.scheme + ":")
      + (if u.netloc == [] then "" else "//" + u.netloc)
      + u.path + (if u.query == [] then "" else "?" + u.query)
  }

  /** `ConfluenceUrlPattern`. */
  datatype Pattern = StandardPage | PageWithQuery | EditPage | DraftPage | Unknown

  const SpacesPart: string := "/spaces/"
  const PagesPart: string := "/pages/"
  const EditPart: string := "/pages/edit-v2/"
  const DraftPart: string := "/pages/resumedraft.action"
  const DraftKey: string := "draftId"

  // ---------------------------------------------------------------------------
  // Scanners
  // ---------------------------------------------------------------------------

  /** The end of the run of characters other than `/` from `i` on: what a
      greedy `[^/]*` takes. */
  function SegmentEnd(s: string, i: nat): (j: nat)
    requires i <= |s|
    ensures i <= j <= |s| && (j == |s| || s[j] == '/')
    ensures forall k :: i <= k < j ==> s[k] != '/'
    decreases |s| - i
  {
    if i == |s| || s[i] == '/' then i else SegmentEnd(s, i + 1)
  }

  /** The end of the run of digits from `i` on: what a greedy `\d*` takes. */
  function DigitsEnd(s: string, i: nat): (j: nat)
    requires i <= |s|
    ensures i <= j <= |s| && (j == |s| || !IsDigit(s[j]))
    ensures forall k :: i <= k < j ==> IsDigit(s[k])
    decreases |s| - i
  {
    if i == |s| || !IsDigit(s[i]) then i else DigitsEnd(s, i + 1)
  }

  /** Only digits. */
  predicate AllDigits(s: string) {
    forall k :: 0 <= k < |s| ==> IsDigit(s[k])
  }

  /** The longest run of digits from `i` is exactly `id`. */
  predicate DigitRun(s: string, i: nat, id: string) {
    id != [] && AllDigits(id) && OccursAt(s, id, i)
    && (i + |id| == |s| || !IsDigit(s[i + |id|]))
  }

  /** The greedy digit run starting at a fixed place is the only one. */
  lemma DigitRunUnique(s: string, i: nat, id: string)
    requires i <= |s| && DigitRun(s, i, id)
    ensures DigitsEnd(s, i) == i + |id|
  {
    var e := DigitsEnd(s, i);
    assert forall k :: i <= k < i + |id| ==> s[k] == id[k - i];
  }

  // ---------------------------------------------------------------------------
  // The regular expressions
  // ---------------------------------------------------------------------------

  /** `/spaces/[^/]+/pages/(\d+)` tried at index `i`: the captured digits.
      The segment cannot hold `/` and must be followed by one, so it is the
      whole run of non-`/` characters; `\d+` is greedy. */
  function StandardAt(s: string, i: nat): Option<string> {
    if OccursAt(s, SpacesPart, i) then
      var j := SegmentEnd(s, i + 8);
      if j > i + 8 && OccursAt(s, PagesPart, j) then
        var d := DigitsEnd(s, j + 7);
        if d > j + 7 then Some(s[j + 7..d]) else None
      else None
    else None
  }

  /** A match of `/spaces/[^/]+/pages/(\d+)` at `i` whose segment ends at `j`
      and whose group is `id`. */
  predicate StandardMatch(s: string, i: nat, j: nat, id: string) {
    && OccursAt(s, SpacesPart, i)
    && i + 8 < j <= |s|
    && (forall k :: i + 8 <= k < j ==> s[k] != '/')
    && OccursAt(s, PagesPart, j)
    && DigitRun(s, j + 7, id)
  }

  /** The scanner finds exactly the matches of the expression. */
  lemma StandardAtSpec(s: string, i: nat, j: nat, id: string)
    ensures StandardMatch(s, i, j, id) ==> StandardAt(s, i) == Some(id)
    ensures StandardAt(s, i).Some? ==> StandardMatch(s, i, SegmentEnd(s, i + 8), StandardAt(s, i).value)
  {
    if StandardMatch(s, i, j, id) {
      StandardMatchFound(s, i, j, id);
    }
    if StandardAt(s, i).Some? {
      StandardFoundMatch(s, i);
    }
  }

  /** A match of the expression is what the scanner finds. */
  lemma StandardMatchFound(s: string, i: nat, j: nat, id: string)
    requires StandardMatch(s, i, j, id)
    ensures StandardAt(s, i) == Some(id)
  {
    assert s[j] == PagesPart[0];
    DigitRunUnique(s, j + 7, id);
    assert s[j + 7..j + 7 + |id|] == id;
  }

  /** What the scanner finds is a match of the expression. */
  lemma StandardFoundMatch(s: string, i: nat)
    requires StandardAt(s, i).Some?
    ensures StandardMatch(s, i, SegmentEnd(s, i + 8), StandardAt(s, i).value)
  {
    var r := StandardAt(s, i);
    var j0 := SegmentEnd(s, i + 8);
    var d := DigitsEnd(s, j0 + 7);
    assert r.value == s[j0 + 7..d];
    assert OccursAt(s, r.value, j0 + 7);
  }

  /** `/pages/edit-v2/(\d+)` tried at index `i`: the captured digits. */
  function EditAt(s: string, i: nat): Option<string> {
    if OccursAt(s, EditPart, i) then
      var d := DigitsEnd(s, i + 15);
      if d > i + 15 then Some(s[i + 15..d]) else None
    else None
  }

  /** A match of `/pages/edit-v2/(\d+)` at `i` whose group is `id`. */
  predicate EditMatch(s: string, i: nat, id: string) {
    OccursAt(s, EditPart, i) && DigitRun(s, i + 15, id)
  }

  /** The scanner finds exactly the matches of the expression. */
  lemma EditAtSpec(s: string, i: nat, id: string)
    ensures EditMatch(s, i, id) ==> EditAt(s, i) == Some(id)
    ensures EditAt(s, i).Some? ==> EditMatch(s, i, EditAt(s, i).value)
  {
    if EditMatch(s, i, id) {
      DigitRunUnique(s, i + 15, id);
      assert s[i + 15..i + 15 + |id|] == id;
    }
    var r := EditAt(s, i);
    if r.Some? {
      var d := DigitsEnd(s, i + 15);
      assert OccursAt(s, r.value, i + 15);
    }
  }

  /** `re.search`: the first index from `i` on where the expression, tried by
      `m`, matches. */
  function Search(m: (string, nat) -> Option<string>, s: string, i: nat): (r: Option<nat>)
    requires i <= |s|
    ensures r.Some? ==> i <= r.value <= |s| && m(s, r.value).Some?
    ensures forall k :: i <= k <= |s| && (r.None? || k < r.value) ==> m(s, k).None?
    decreases |s| - i
  {
    if m(s, i).Some? then Some(i)
    else if i == |s| then None
    else Search(m, s, i + 1)
  }

  /** `match.group(1)` of the first match, or None. */
  function SearchGroup(m: (string, nat) -> Option<string>, s: string): Option<string> {
    match Search(m, s, 0)
    case None => None
    case Some(k) => m(s, k)
  }

  /** The group comes from the leftmost match: with a match at `k` and none
      before it, the group is the one at `k`. */
  lemma SearchGroupAt(m: (string, nat) -> Option<string>, s: string, k: nat)
    requires k <= |s| && m(s, k).Some?
    requires forall j :: 0 <= j < k ==> m(s, j).None?
    ensures SearchGroup(m, s) == m(s, k)
  {
    var r := Search(m, s, 0);
    assert r.Some?;
  }

  /** A group is found exactly when the expression matches somewhere. */
  lemma SearchGroupFound(m: (string, nat) -> Option<string>, s: string)
    ensures SearchGroup(m, s).Some? <==> exists k :: 0 <= k <= |s| && m(s, k).Some?
  {
    var r := Search(m, s, 0);
    if r.Some? {
      assert m(s, r.value).Some?;
    }
  }

  /** Both expressions capture a non-empty run of digits. */
  lemma GroupDigits(m: (string, nat) -> Option<string>, s: string)
    requires m == StandardAt || m == EditAt
    ensures SearchGroup(m, s).Some? ==> SearchGroup(m, s).value != [] && AllDigits(SearchGroup(m, s).value)
  {
    var r := Search(m, s, 0);
    if r.Some? {
      if m == StandardAt {
        StandardAtSpec(s, r.value, 0, []);
      } else {
        EditAtSpec(s, r.value, []);
      }
    }
  }

  /** `re.search(r"/spaces/[^/]+/pages/\d+", s)` succeeds. */
  predicate StandardPath(s: string) {
    Search(StandardAt, s, 0).Some?
  }

  // ---------------------------------------------------------------------------
  // identify_url_pattern
  // ---------------------------------------------------------------------------

  /** `identify_url_pattern`: the draft test first, then the edit test, then
      the standard expression, whose outcome depends on the query. */
  function IdentifyUrlPattern(u: Url): Pattern {
    if Contains(u.path, DraftPart) && Contains(u.query, "draftId=") then DraftPage
    else if Contains(u.path, EditPart) then EditPage
    else if StandardPath(u.path) then (if u.query != [] then PageWithQuery else StandardPage)
    else Unknown
  }

  /** The patterns in terms of where their markers occur in the path and the
      query: a fixed priority, one pattern for every URL. */
  lemma IdentifySpec(u: Url)
    ensures IdentifyUrlPattern(u) == DraftPage <==> Occurs(u.path, DraftPart) && Occurs(u.query, "draftId=")
    ensures IdentifyUrlPattern(u) == EditPage
            <==> !(Occurs(u.path, DraftPart) && Occurs(u.query, "draftId=")) && Occurs(u.path, EditPart)
    ensures IdentifyUrlPattern(u) in {StandardPage, PageWithQuery}
            <==> !(Occurs(u.path, DraftPart) && Occurs(u.query, "draftId=")) && !Occurs(u.path, EditPart)
                 && exists k :: 0 <= k <= |u.path| && StandardAt(u.path, k).Some?
    ensures IdentifyUrlPattern(u) == PageWithQuery ==> u.query != []
    ensures IdentifyUrlPattern(u) == StandardPage ==> u.query == []
  {
    ContainsOccurs(u.path, DraftPart);
    ContainsOccurs(u.query, "draftId=");
    ContainsOccurs(u.path, EditPart);
    var r := Search(StandardAt, u.path, 0);
    if r.Some? {
      assert StandardAt(u.path, r.value).Some?;
    }
  }

  /** A standard-shaped path gives PAGE_WITH_QUERY exactly when there is a
      query, and the title or the query never turn it into anything else. */
  lemma StandardOrWithQuery(u: Url)
    requires !Contains(u.path, DraftPart) && !Contains(u.path, EditPart) && StandardPath(u.path)
    ensures IdentifyUrlPattern(u) == PageWithQuery <==> u.query != []
    ensures IdentifyUrlPattern(u) == StandardPage <==> u.query == []
  {
  }

  // ---------------------------------------------------------------------------
  // The extractors
  // ---------------------------------------------------------------------------

  /** `extract_page_id_from_standard_url`: the group of the first match of
      `/spaces/[^/]+/pages/(\d+)` in the URL text. */
  function ExtractPageIdFromStandardUrl(url: string): (r: Option<string>)
    ensures r.Some? ==> r.value != [] && AllDigits(r.value)
  {
    GroupDigits(StandardAt, url);
    SearchGroup(StandardAt, url)
  }

  /** `extract_page_id_from_page_with_query_url`: the standard extractor. */
  function ExtractPageIdFromPageWithQueryUrl(url: string): (r: Option<string>)
    ensures r == ExtractPageIdFromStandardUrl(url)
  {
    ExtractPageIdFromStandardUrl(url)
  }

  /** `extract_page_id_from_edit_url`: the group of the first match of
      `/pages/edit-v2/(\d+)` in the URL text. */
  function ExtractPageIdFromEditUrl(url: string): (r: Option<string>)
    ensures r.Some? ==> r.value != [] && AllDigits(r.value)
  {
    GroupDigits(EditAt, url);
    SearchGroup(EditAt, url)
  }

  /** The standard extractor returns the group of the leftmost match, and
      None exactly when nothing matches. */
  lemma StandardExtractSpec(url: string, i: nat, j: nat, id: string)
    requires StandardMatch(url, i, j, id)
    requires forall k :: 0 <= k < i ==> StandardAt(url, k).None?
    ensures ExtractPageIdFromStandardUrl(url) == Some(id)
  {
    StandardAtSpec(url, i, j, id);
    SearchGroupAt(StandardAt, url, i);
  }

  /** No match anywhere, no id. */
  lemma StandardExtractNone(url: string)
    requires forall k :: 0 <= k <= |url| ==> StandardAt(url, k).None?
    ensures ExtractPageIdFromStandardUrl(url) == None
  {
    SearchGroupFound(StandardAt, url);
  }

  /** The edit extractor returns the group of the leftmost match. */
  lemma EditExtractSpec(url: string, i: nat, id: string)
    requires EditMatch(url, i, id)
    requires forall k :: 0 <= k < i ==> EditAt(url, k).None?
    ensures ExtractPageIdFromEditUrl(url) == Some(id)
  {
    EditAtSpec(url, i, id);
    SearchGroupAt(EditAt, url, i);
  }

  /** No match anywhere, no id. */
  lemma EditExtractNone(url: string)
    requires forall k :: 0 <= k <= |url| ==> EditAt(url, k).None?
    ensures ExtractPageIdFromEditUrl(url) == None
  {
    SearchGroupFound(EditAt, url);
  }

  // ---------------------------------------------------------------------------
  // What follows the match does not matter
  // ---------------------------------------------------------------------------

  /** `t` is `s`, or `s` followed by text that starts with a non-digit: a
      title after `/`, or a query after `?`. */
  predicate NonDigitExtension(t: string, s: string) {
    t == s || (|s| < |t| && t[..|s|] == s && !IsDigit(t[|s|]))
  }

  /** The run of non-`/` characters ends at the same place once the text
      holds a `/` further on. */
  lemma {:induction false} SegmentEndExtend(s: string, t: string, a: nat, p: nat)
    requires |s| <= |t| && t[..|s|] == s
    requires a <= p < |s| && s[p] == '/'
    ensures SegmentEnd(t, a) == SegmentEnd(s, a)
    decreases p - a
  {
    assert t[a] == s[a];
    if s[a] != '/' {
      SegmentEndExtend(s, t, a + 1, p);
    }
  }

  /** A greedy digit run stops where it stopped, since what follows starts
      with a non-digit. */
  lemma {:induction false} DigitsEndExtend(s: string, t: string, a: nat)
    requires NonDigitExtension(t, s) && a <= |s|
    ensures DigitsEnd(t, a) == DigitsEnd(s, a)
    decreases |s| - a
  {
    if t != s && a < |s| {
      assert t[a] == s[a];
      if IsDigit(s[a]) {
        DigitsEndExtend(s, t, a + 1);
      }
    }
  }

  /** Text appended to the URL cannot change a literal found within it. */
  lemma OccursAtExtend(s: string, t: string, w: string, a: nat)
    requires |s| <= |t| && t[..|s|] == s && a + |w| <= |s|
    ensures OccursAt(t, w, a) == OccursAt(s, w, a)
  {
    PrefixSlice(s, t, a, a + |w|);
  }

  /** A slice within the prefix is a slice of the prefix. */
  lemma PrefixSlice(s: string, t: string, a: nat, b: nat)
    requires |s| <= |t| && t[..|s|] == s && a <= b <= |s|
    ensures t[a..b] == s[a..b]
  {
    forall k | a <= k < b ensures t[k] == s[k] {
      assert t[..|s|][k] == t[k];
    }
  }

  /** The standard expression tried at `k` sees the same thing after the
      text is extended, once a `/` followed by room for `/pages/` lies
      ahead. */
  lemma StandardAtExtend(s: string, t: string, k: nat, p: nat)
    requires NonDigitExtension(t, s)
    requires k + 8 <= p && p + 7 <= |s| && s[p] == '/'
    ensures StandardAt(t, k) == StandardAt(s, k)
  {
    if t != s {
      OccursAtExtend(s, t, SpacesPart, k);
      if OccursAt(s, SpacesPart, k) {
        SegmentEndExtend(s, t, k + 8, p);
        var e := SegmentEnd(s, k + 8);
        OccursAtExtend(s, t, PagesPart, e);
        if e > k + 8 && OccursAt(s, PagesPart, e) {
          DigitGroupExtend(s, t, e + 7);
        }
      }
    }
  }

  /** The digit run at `a`, and the group it captures, are the same after
      a non-digit extension. */
  lemma DigitGroupExtend(s: string, t: string, a: nat)
    requires NonDigitExtension(t, s) && a <= |s|
    ensures DigitsEnd(t, a) == DigitsEnd(s, a)
    ensures t[a..DigitsEnd(t, a)] == s[a..DigitsEnd(s, a)]
  {
    DigitsEndExtend(s, t, a);
    if t != s {
      PrefixSlice(s, t, a, DigitsEnd(s, a));
    }
  }

  /** The edit expression tried at `k` sees the same thing after the text is
      extended. */
  lemma EditAtExtend(s: string, t: string, k: nat)
    requires NonDigitExtension(t, s) && k + 15 <= |s|
    ensures EditAt(t, k) == EditAt(s, k)
  {
    if t != s {
      OccursAtExtend(s, t, EditPart, k);
      if OccursAt(s, EditPart, k) {
        DigitsEndExtend(s, t, k + 15);
        var d := DigitsEnd(s, k + 15);
        PrefixSlice(s, t, k + 15, d);
      }
    }
  }

  /** A title or a query after the first standard match leaves the extracted
      id alone. */
  lemma StandardIdKept(s: string, t: string, i: nat, j: nat, id: string)
    requires NonDigitExtension(t, s)
    requires StandardMatch(s, i, j, id)
    requires forall k :: 0 <= k < i ==> StandardAt(s, k).None?
    ensures ExtractPageIdFromStandardUrl(t) == Some(id)
  {
    assert s[i + 7] == SpacesPart[7] && s[j] == PagesPart[0];
    forall k | 0 <= k < i ensures StandardAt(t, k).None? {
      StandardAtExtend(s, t, k, i + 7);
    }
    StandardAtSpec(s, i, j, id);
    StandardAtExtend(s, t, i, j);
    SearchGroupAt(StandardAt, t, i);
  }

  /** A title or a query after the first edit match leaves the extracted id
      alone. */
  lemma EditIdKept(s: string, t: string, i: nat, id: string)
    requires NonDigitExtension(t, s)
    requires EditMatch(s, i, id)
    requires forall k :: 0 <= k < i ==> EditAt(s, k).None?
    ensures ExtractPageIdFromEditUrl(t) == Some(id)
  {
    forall k | 0 <= k <= i ensures EditAt(t, k) == EditAt(s, k) {
      EditAtExtend(s, t, k);
    }
    EditAtSpec(s, i, id);
    SearchGroupAt(EditAt, t, i);
  }

  // ---------------------------------------------------------------------------
  // extract_page_id_from_draft_url: parse_qs
  // ---------------------------------------------------------------------------

  /** `s.replace('+', ' ')`, the first step of decoding a query field. */
  function PlusToSpace(s: string): (r: string)
    ensures |r| == |s|
    ensures forall k :: 0 <= k < |s| ==> r[k] == (if s[k] == '+' then ' ' else s[k])
  {
    if s == [] then [] else [if s[0] == '+' then ' ' else s[0]] + PlusToSpace(s[1..])
  }

  /** One `&`-separated piece of a query as `parse_qsl` keeps it: split at the
      first `=`; a piece without `=` or with an empty value is dropped. */
  function QueryField(piece: string): (r: Option<(string, string)>)
    ensures r.Some? ==> r.value.1 != []
  {
    match Find(piece, "=", 0)
    case None => None
    case Some(e) =>
      if e + 1 == |piece| then None
      else Some((PlusToSpace(piece[..e]), PlusToSpace(piece[e + 1..])))
  }

  /** The kept fields of the pieces, in order. */
  function Fields(pieces: seq<string>): (r: seq<(string, string)>)
    ensures forall i :: 0 <= i < |r| ==> r[i].1 != []
  {
    if pieces == [] then []
    else
      match QueryField(pieces[0])
      case None => Fields(pieces[1..])
      case Some(f) => [f] + Fields(pieces[1..])
  }

  /** `parse_qsl(query)`. */
  function QueryFields(query: string): seq<(string, string)> {
    Fields(Split(query, '&'))
  }

  /** `parse_qs(query).get(key, [None])[0]`: the first value kept under
      `key`. */
  function FirstValue(fields: seq<(string, string)>, key: string): (r: Option<string>)
    ensures r.Some? <==> exists i :: 0 <= i < |fields| && fields[i].0 == key
    ensures r.Some? ==> (key, r.value) in fields
  {
    if fields == [] then None
    else if fields[0].0 == key then
      assert fields[0] == (key, fields[0].1);
      Some(fields[0].1)
    else
      var r := FirstValue(fields[1..], key);
      assert forall i :: 0 < i < |fields| ==> fields[i] == fields[1..][i - 1];
      r
  }

  /** The value comes from the first field under the key. */
  lemma {:induction false} FirstValueAt(fields: seq<(string, string)>, key: string, i: nat)
    requires i < |fields| && fields[i].0 == key
    requires forall j :: 0 <= j < i ==> fields[j].0 != key
    ensures FirstValue(fields, key) == Some(fields[i].1)
    decreases i
  {
    if i > 0 {
      FirstValueAt(fields[1..], key, i - 1);
    }
  }

  /** `extract_page_id_from_draft_url`. */
  function ExtractPageIdFromDraftUrl(u: Url): (r: Option<string>)
    ensures r.Some? ==> r.value != []
  {
    FirstValue(QueryFields(u.query), DraftKey)
  }

  /** A piece `name=value` with no `=` in the name is cut at that `=`; it is
      kept exactly when the value is non-empty. */
  lemma QueryFieldOf(name: string, value: string)
    requires '=' !in name
    ensures QueryField(name + "=" + value)
            == if value == [] then None else Some((PlusToSpace(name), PlusToSpace(value)))
  {
    var piece := name + "=" + value;
    var e := |name|;
    assert OccursAt(piece, "=", e) by {
      assert piece[e..e + 1] == "=";
    }
    forall j | 0 <= j < e ensures !OccursAt(piece, "=", j) {
      assert piece[j] == name[j];
    }
    assert Find(piece, "=", 0) == Some(e);
    assert piece[..e] == name && piece[e + 1..] == value;
  }

  /** A query that is a single `name=value` piece holds that one field, or
      nothing when the value is empty. */
  lemma SingleField(name: string, value: string)
    requires '=' !in name && '&' !in name && '&' !in value
    ensures QueryFields(name + "=" + value)
            == if value == [] then [] else [(PlusToSpace(name), PlusToSpace(value))]
  {
    var q := name + "=" + value;
    assert '&' !in q;
    SplitNoSep(q, '&');
    QueryFieldOf(name, value);
    FieldsSingle(q);
  }

  lemma FieldsSingle(piece: string)
    ensures Fields([piece]) == if QueryField(piece).Some? then [QueryField(piece).value] else []
  {
    assert [piece][0] == piece && [piece][1..] == [];
  }

  /** A query that is one `draftId=<id>` field yields that id, with `+` read
      as a space. */
  lemma DraftIdOnly(u: Url, id: string)
    requires u.query == DraftKey + "=" + id && id != [] && '&' !in id
    ensures ExtractPageIdFromDraftUrl(u) == Some(PlusToSpace(id))
  {
    assert '=' !in DraftKey && '&' !in DraftKey && '+' !in DraftKey;
    SingleField(DraftKey, id);
    assert QueryFields(u.query) == [(PlusToSpace(DraftKey), PlusToSpace(id))];
    PlusToSpaceNoPlus(DraftKey);
  }

  /** A name without `+` is read as written. */
  lemma PlusToSpaceNoPlus(s: string)
    requires '+' !in s
    ensures PlusToSpace(s) == s
  {
  }

  /** A query without a kept `draftId` field yields nothing. */
  lemma DraftIdMissing(u: Url)
    requires forall i :: 0 <= i < |QueryFields(u.query)| ==> QueryFields(u.query)[i].0 != DraftKey
    ensures ExtractPageIdFromDraftUrl(u) == None
  {
  }

  /** The fields of two lists of pieces are the fields of each, in order. */
  lemma {:induction false} FieldsAppend(p: seq<string>, q: seq<string>)
    ensures Fields(p + q) == Fields(p) + Fields(q)
    decreases |p|
  {
    if p == [] {
      assert p + q == q;
    } else {
      assert (p + q)[0] == p[0] && (p + q)[1..] == p[1..] + q;
      FieldsAppend(p[1..], q);
    }
  }

  /** The piece `draftId=<id>` is kept as the field `draftId` with the id,
      `+` read as a space. */
  lemma DraftPieceField(id: string)
    requires id != []
    ensures Fields([DraftKey + "=" + id]) == [(DraftKey, PlusToSpace(id))]
  {
    assert '=' !in DraftKey && '+' !in DraftKey;
    QueryFieldOf(DraftKey, id);
    FieldsSingle(DraftKey + "=" + id);
    PlusToSpaceNoPlus(DraftKey);
  }

  /** A query made of `&`-separated pieces, one of them `draftId=<id>` and
      none before it kept under `draftId`, yields that id, whatever the other
      pieces hold. */
  lemma DraftIdAmong(u: Url, pre: seq<string>, id: string, post: seq<string>)
    requires forall i :: 0 <= i < |pre| ==> '&' !in pre[i]
    requires forall i :: 0 <= i < |post| ==> '&' !in post[i]
    requires id != [] && '&' !in id
    requires forall i :: 0 <= i < |Fields(pre)| ==> Fields(pre)[i].0 != DraftKey
    requires u.query == Join(pre + [DraftKey + "=" + id] + post, "&")
    ensures ExtractPageIdFromDraftUrl(u) == Some(PlusToSpace(id))
  {
    var x := DraftKey + "=" + id;
    var xs := pre + [x] + post;
    PiecesFree(pre, id, post);
    SplitJoinInverse(xs, '&');
    FieldsAround(pre, id, post);
    FirstValueAfter(Fields(pre), PlusToSpace(id), Fields(post));
  }

  /** None of the pieces around `draftId=<id>` holds `&`, nor does that piece. */
  lemma PiecesFree(pre: seq<string>, id: string, post: seq<string>)
    requires forall i :: 0 <= i < |pre| ==> '&' !in pre[i]
    requires forall i :: 0 <= i < |post| ==> '&' !in post[i]
    requires '&' !in id
    ensures forall i :: 0 <= i < |pre + [DraftKey + "=" + id] + post| ==>
              '&' !in (pre + [DraftKey + "=" + id] + post)[i]
  {
    var xs := pre + [DraftKey + "=" + id] + post;
    assert '&' !in DraftKey;
    forall i | 0 <= i < |xs| ensures '&' !in xs[i] {
      if i < |pre| {
        assert xs[i] == pre[i];
      } else if i > |pre| {
        assert xs[i] == post[i - |pre| - 1];
      }
    }
  }

  /** The fields of the pieces around `draftId=<id>` surround its field. */
  lemma FieldsAround(pre: seq<string>, id: string, post: seq<string>)
    requires id != []
    ensures Fields(pre + [DraftKey + "=" + id] + post)
            == Fields(pre) + [(DraftKey, PlusToSpace(id))] + Fields(post)
  {
    FieldsAppend(pre + [DraftKey + "=" + id], post);
    FieldsAppend(pre, [DraftKey + "=" + id]);
    DraftPieceField(id);
  }

  /** With no `draftId` field before it, the `draftId` field gives the value. */
  lemma FirstValueAfter(before: seq<(string, string)>, v: string, after: seq<(string, string)>)
    requires forall i :: 0 <= i < |before| ==> before[i].0 != DraftKey
    ensures FirstValue(before + [(DraftKey, v)] + after, DraftKey) == Some(v)
  {
    var fs := before + [(DraftKey, v)] + after;
    assert fs[|before|] == (DraftKey, v);
    assert forall j :: 0 <= j < |before| ==> fs[j] == before[j];
    FirstValueAt(fs, DraftKey, |before|);
  }

  /** The piece `x=1` is kept as the field `x`, not `draftId`. */
  lemma OtherPieceField()
    ensures Fields(["x=1"]) == [("x", "1")]
  {
    QueryFieldOf("x", "1");
    FieldsSingle("x=1");
    PlusToSpaceNoPlus("x");
    PlusToSpaceNoPlus("1");
    assert "x" + "=" + "1" == "x=1";
  }

  /** `x=1&draftId=5` yields `5`. */
  lemma DraftIdSecondExample(u: Url)
    requires u.query == "x=1&draftId=5"
    ensures ExtractPageIdFromDraftUrl(u) == Some("5")
  {
    OtherPieceField();
    SecondExampleQuery();
    DraftIdAmong(u, ["x=1"], "5", []);
    PlusToSpaceNoPlus("5");
  }

  /** `x=1&draftId=5` is the join of its two pieces. */
  lemma SecondExampleQuery()
    ensures Join(["x=1"] + [DraftKey + "=" + "5"] + [], "&") == "x=1&draftId=5"
  {
    assert DraftKey + "=" + "5" == "draftId=5";
    assert ["x=1"] + ["draftId=5"] + [] == ["x=1", "draftId=5"];
    JoinTwo("x=1", "draftId=5", "&");
  }

  /** Joining two pieces puts the glue between them. */
  lemma JoinTwo(a: string, b: string, glue: string)
    ensures Join([a, b], glue) == a + glue + b
  {
    assert [a, b][1..] == [b];
  }

  /** `draftId=5&x=1` yields `5`. */
  lemma DraftIdFirstExample(u: Url)
    requires u.query == "draftId=5&x=1"
    ensures ExtractPageIdFromDraftUrl(u) == Some("5")
  {
    var none: seq<string> := [];
    assert DraftKey + "=" + "5" == "draftId=5";
    assert Join(none + ["draftId=5"] + ["x=1"], "&") == "draftId=5&x=1" by {
      assert none + ["draftId=5"] + ["x=1"] == ["draftId=5", "x=1"];
    }
    DraftIdAmong(u, none, "5", ["x=1"]);
    PlusToSpaceNoPlus("5");
  }

  /** In such a query `draftId=` occurs, so the draft test passes. */
  lemma DraftAmongMarked(pre: seq<string>, id: string, post: seq<string>)
    ensures Contains(Join(pre + [DraftKey + "=" + id] + post, "&"), "draftId=")
  {
    var x := DraftKey + "=" + id;
    var tail := Join([x] + post, "&");
    assert tail[..|x|] == x by {
      if post != [] {
        JoinCons(x, post, "&");
      }
    }
    var q := Join(pre + [x] + post, "&");
    var at := if pre == [] then 0 else |Join(pre, "&")| + 1;
    assert q == if pre == [] then tail else Join(pre, "&") + "&" + tail by {
      assert pre + [x] + post == pre + ([x] + post);
      if pre != [] {
        JoinAppend(pre, [x] + post, "&");
      }
    }
    assert q[at..at + 8] == tail[..8] == "draftId=";
    assert OccursAt(q, "draftId=", at);
    ContainsOccurs(q, "draftId=");
  }

  // ---------------------------------------------------------------------------
  // convert_to_api_url and the transform output
  // ---------------------------------------------------------------------------

  /** The page id `convert_to_api_url` extracts for a pattern. */
  function PageId(u: Url, p: Pattern): Option<string> {
    match p
    case StandardPage => ExtractPageIdFromStandardUrl(UrlText(u))
    case PageWithQuery => ExtractPageIdFromPageWithQueryUrl(UrlText(u))
    case EditPage => ExtractPageIdFromEditUrl(UrlText(u))
    case DraftPage => ExtractPageIdFromDraftUrl(u)
    case Unknown => None
  }

  const ApiPath: string := "/wiki/rest/api/content/"
  const ApiQuery: string := "?expand=body.atlas_doc_format"

  /** The REST URL of page `id` on the site of `u`. */
  function ApiUrl(u: Url, id: string): string {
    u.scheme + "://" + u.netloc + ApiPath + id + ApiQuery
  }

  /** `convert_to_api_url`: None for an unknown pattern or a missing or empty
      id, the REST URL of the page otherwise. */
  function ConvertToApiUrl(u: Url): (r: Option<string>)
    ensures r.Some? <==> IdentifyUrlPattern(u) != Unknown && PageId(u, IdentifyUrlPattern(u)).Some?
    ensures r.Some? ==> r.value == ApiUrl(u, PageId(u, IdentifyUrlPattern(u)).value)
    ensures r.Some? && IdentifyUrlPattern(u) != DraftPage ==> AllDigits(PageId(u, IdentifyUrlPattern(u)).value)
  {
    var id := PageId(u, IdentifyUrlPattern(u));
    if id.None? || id.value == [] then None else Some(ApiUrl(u, id.value))
  }

  /** Every extractor yields a non-empty id, so the emptiness test of the
      source never fires on its own. */
  lemma PageIdNonEmpty(u: Url, p: Pattern)
    ensures PageId(u, p).Some? ==> PageId(u, p).value != []
  {
  }

  /** A URL whose path has the standard shape, and neither the draft nor the
      edit marker, converts to the REST URL of the id of the first standard
      match in the whole URL text, with or without a query. */
  lemma StandardConverts(u: Url, i: nat, j: nat, id: string)
    requires !Contains(u.path, DraftPart) && !Contains(u.path, EditPart) && StandardPath(u.path)
    requires StandardMatch(UrlText(u), i, j, id)
    requires forall k :: 0 <= k < i ==> StandardAt(UrlText(u), k).None?
    ensures ConvertToApiUrl(u) == Some(ApiUrl(u, id))
  {
    StandardExtractSpec(UrlText(u), i, j, id);
  }

  /** An edit URL converts to the REST URL of the digits after the first
      `/pages/edit-v2/` of the URL text. */
  lemma EditConverts(u: Url, i: nat, id: string)
    requires !Contains(u.path, DraftPart) && Contains(u.path, EditPart)
    requires EditMatch(UrlText(u), i, id)
    requires forall k :: 0 <= k < i ==> EditAt(UrlText(u), k).None?
    ensures IdentifyUrlPattern(u) == EditPage
    ensures ConvertToApiUrl(u) == Some(ApiUrl(u, id))
  {
    EditExtractSpec(UrlText(u), i, id);
  }

  /** The edit test asks only for `/pages/edit-v2/` in the path; when no
      digits follow it anywhere in the URL, the URL is an edit page that does
      not convert. */
  lemma EditWithoutIdFails(u: Url)
    requires !Contains(u.path, DraftPart) && Contains(u.path, EditPart)
    requires forall k :: 0 <= k <= |UrlText(u)| ==> EditAt(UrlText(u), k).None?
    ensures IdentifyUrlPattern(u) == EditPage && ConvertToApiUrl(u) == None
  {
    EditExtractNone(UrlText(u));
  }

  /** A draft URL whose query is one `draftId=<id>` field converts to the REST
      URL of that id. */
  lemma DraftConverts(u: Url, id: string)
    requires Contains(u.path, DraftPart)
    requires u.query == DraftKey + "=" + id && id != [] && '&' !in id
    ensures IdentifyUrlPattern(u) == DraftPage
    ensures ConvertToApiUrl(u) == Some(ApiUrl(u, PlusToSpace(id)))
  {
    DraftQueryMarked(u.query, id);
    DraftIdOnly(u, id);
  }

  /** A draft URL whose query holds the piece `draftId=<id>` among others,
      with no earlier `draftId` field, converts to the REST URL of that id. */
  lemma DraftConvertsAmong(u: Url, pre: seq<string>, id: string, post: seq<string>)
    requires Contains(u.path, DraftPart)
    requires forall i :: 0 <= i < |pre| ==> '&' !in pre[i]
    requires forall i :: 0 <= i < |post| ==> '&' !in post[i]
    requires id != [] && '&' !in id
    requires forall i :: 0 <= i < |Fields(pre)| ==> Fields(pre)[i].0 != DraftKey
    requires u.query == Join(pre + [DraftKey + "=" + id] + post, "&")
    ensures IdentifyUrlPattern(u) == DraftPage
    ensures ConvertToApiUrl(u) == Some(ApiUrl(u, PlusToSpace(id)))
  {
    DraftAmongMarked(pre, id, post);
    DraftIdAmong(u, pre, id, post);
  }

  /** `draftId=` with nothing after it makes a draft URL that `parse_qs`
      drops, so it does not convert. */
  lemma EmptyDraftIdFails(u: Url)
    requires Contains(u.path, DraftPart) && u.query == DraftKey + "="
    ensures IdentifyUrlPattern(u) == DraftPage && ConvertToApiUrl(u) == None
  {
    DraftQueryMarked(u.query, []);
    assert '=' !in DraftKey && '&' !in DraftKey;
    assert u.query == DraftKey + "=" + [];
    SingleField(DraftKey, []);
  }

  /** A query starting `draftId=` passes the draft test. */
  lemma DraftQueryMarked(q: string, id: string)
    requires q == DraftKey + "=" + id
    ensures Contains(q, "draftId=")
  {
    assert q[..8] == "draftId=";
    assert OccursAt(q, "draftId=", 0);
    ContainsOccurs(q, "draftId=");
  }

  /** Standard and with-query URLs that share the text up to their first
      match, and differ only in the title or query after it, convert to the
      same REST URL. */
  lemma StandardTitleAndQueryIgnored(u: Url, v: Url, base: string, i: nat, j: nat, id: string)
    requires u.scheme == v.scheme && u.netloc == v.netloc
    requires !Contains(u.path, DraftPart) && !Contains(u.path, EditPart) && StandardPath(u.path)
    requires !Contains(v.path, DraftPart) && !Contains(v.path, EditPart) && StandardPath(v.path)
    requires NonDigitExtension(UrlText(u), base) && NonDigitExtension(UrlText(v), base)
    requires StandardMatch(base, i, j, id)
    requires forall k :: 0 <= k < i ==> StandardAt(base, k).None?
    ensures ConvertToApiUrl(u) == ConvertToApiUrl(v) == Some(ApiUrl(u, id))
  {
    StandardIdKept(base, UrlText(u), i, j, id);
    StandardIdKept(base, UrlText(v), i, j, id);
  }

  /** A URL written without scheme or host is searched as its bare path:
      in `pages/edit-v2/1/x/pages/edit-v2/2` the first `/pages/edit-v2/` is the
      second one, so the id is `2`. */
  lemma HostlessEditExample(u: Url)
    requires u == Url("", "", HostlessPath, "")
    ensures IdentifyUrlPattern(u) == EditPage
    ensures ConvertToApiUrl(u) == Some(ApiUrl(u, "2"))
  {
    assert UrlText(u) == HostlessPath;
    HostlessNoDraft();
    HostlessEditMatch();
    HostlessNoEarlyEdit();
    EditConverts(u, 17, "2");
  }

  const HostlessPath: string := "pages/edit-v2/1/x/pages/edit-v2/2"

  /** The path holds no draft marker. */
  lemma HostlessNoDraft()
    ensures !Contains(HostlessPath, DraftPart)
  {
    HostlessChars();
    AbsentEarly(HostlessPath, DraftPart, 9);
  }

  /** The edit expression matches at index 17 with group `2`. */
  lemma HostlessEditMatch()
    ensures Contains(HostlessPath, EditPart) && EditMatch(HostlessPath, 17, "2")
  {
    var s := HostlessPath;
    assert s[17..32] == EditPart && s[32..33] == "2";
    OccursContains(s, EditPart, 17);
  }

  /** The edit expression matches nowhere before index 17. */
  lemma HostlessNoEarlyEdit()
    ensures forall k :: 0 <= k < 17 ==> EditAt(HostlessPath, k).None?
  {
    HostlessChars();
    var s := HostlessPath;
    forall k | 0 <= k < 17 ensures EditAt(s, k).None? {
      MissAt(s, EditPart, k, if s[k] != '/' then 0 else 1);
    }
  }

  /** Every `/` of the path before index 17 is followed by something other
      than `p`. */
  lemma HostlessChars()
    ensures |HostlessPath| == 33
    ensures forall k :: 0 <= k < 17 ==> HostlessPath[k] != '/' || HostlessPath[k + 1] != 'p'
  {
  }

  /** A literal whose first two characters appear nowhere before `n`, in a
      string too short for it to start at `n` or later, is not in it. */
  lemma AbsentEarly(s: string, t: string, n: nat)
    requires |t| >= 2 && |s| < n + |t|
    requires forall k :: 0 <= k < n && k + 1 < |s| ==> s[k] != t[0] || s[k + 1] != t[1]
    ensures !Contains(s, t)
  {
    forall k | 0 <= k ensures !OccursAt(s, t, k) {
      if k + |t| <= |s| {
        MissAt(s, t, k, if s[k] != t[0] then 0 else 1);
      }
    }
    ContainsOccurs(s, t);
  }

  /** A literal found at some index is contained. */
  lemma OccursContains(s: string, t: string, k: nat)
    requires OccursAt(s, t, k)
    ensures Contains(s, t)
  {
    ContainsOccurs(s, t);
  }

  /** A literal does not occur where one of its characters is missing. */
  lemma MissAt(s: string, t: string, k: nat, d: nat)
    requires d < |t| && (k + |t| > |s| || s[k + d] != t[d])
    ensures !OccursAt(s, t, k)
  {
    if k + |t| <= |s| {
      assert s[k..k + |t|][d] == s[k + d];
    }
  }

  /** Edit URLs that share the text up to their first match convert to the
      same REST URL, whatever follows it. */
  lemma EditTrailIgnored(u: Url, v: Url, base: string, i: nat, id: string)
    requires u.scheme == v.scheme && u.netloc == v.netloc
    requires !Contains(u.path, DraftPart) && Contains(u.path, EditPart)
    requires !Contains(v.path, DraftPart) && Contains(v.path, EditPart)
    requires NonDigitExtension(UrlText(u), base) && NonDigitExtension(UrlText(v), base)
    requires EditMatch(base, i, id)
    requires forall k :: 0 <= k < i ==> EditAt(base, k).None?
    ensures ConvertToApiUrl(u) == ConvertToApiUrl(v) == Some(ApiUrl(u, id))
  {
    EditIdKept(base, UrlText(u), i, id);
    EditIdKept(base, UrlText(v), i, id);
  }

  /** The page id can be read back out of the REST URL: it sits between the
      fixed path and the fixed query. */
  lemma ApiUrlId(u: Url, id: string)
    ensures var a := ApiUrl(u, id);
            var start := |u.scheme| + 3 + |u.netloc| + |ApiPath|;
            start + |id| + |ApiQuery| == |a| && a[start..start + |id|] == id
            && a[start + |id|..] == ApiQuery
  {
  }

  /** Two pages of one site have the same REST URL only when they have the
      same id. */
  lemma ApiUrlInjective(u: Url, a: string, b: string)
    requires ApiUrl(u, a) == ApiUrl(u, b)
    ensures a == b
  {
    ApiUrlId(u, a);
    ApiUrlId(u, b);
  }

  /** `ConfluenceUrlTransformOutput`. */
  datatype TransformOutput = TransformOutput(input: Url, pattern: Pattern, apiUrl: Option<string>, success: bool)

  /** `ConfluenceUrlTransformInput.main`. */
  function Transform(u: Url): (r: TransformOutput)
    ensures r.success <==> r.apiUrl.Some?
    ensures r.success ==> r.pattern != Unknown
    ensures r.input == u && r.pattern == IdentifyUrlPattern(u) && r.apiUrl == ConvertToApiUrl(u)
  {
    TransformOutput(u, IdentifyUrlPattern(u), ConvertToApiUrl(u), ConvertToApiUrl(u).Some?)
  }

  /** A standard page URL without a query transforms successfully into the
      REST URL of the id of its first standard match. */
  lemma TransformStandard(u: Url, i: nat, j: nat, id: string)
    requires u.query == [] && !Contains(u.path, DraftPart) && !Contains(u.path, EditPart)
    requires StandardPath(u.path)
    requires StandardMatch(UrlText(u), i, j, id)
    requires forall k :: 0 <= k < i ==> StandardAt(UrlText(u), k).None?
    ensures Transform(u) == TransformOutput(u, StandardPage, Some(ApiUrl(u, id)), true)
  {
    StandardConverts(u, i, j, id);
  }

  /** A URL of no known pattern fails to transform and has no REST URL. */
  lemma TransformUnknown(u: Url)
    requires IdentifyUrlPattern(u) == Unknown
    ensures Transform(u) == TransformOutput(u, Unknown, None, false)
  {
  }

  // ---------------------------------------------------------------------------
  // Record.site_url
  // ---------------------------------------------------------------------------

  /** `"/".join(url.split("/")[:3])`. */
  function SiteUrl(url: string): string {
    var pieces := Split(url, '/');
    Join(pieces[..if |pieces| < 3 then |pieces| else 3], "/")
  }

  /** The first three `/`-pieces of `scheme://netloc` followed by a path are
      the scheme and the host. */
  lemma SiteUrlOf(scheme: string, netloc: string, rest: string)
    requires '/' !in scheme && '/' !in netloc
    requires rest == [] || rest[0] == '/'
    ensures SiteUrl(scheme + "://" + netloc + rest) == scheme + "://" + netloc
  {
    var a := scheme + ":";
    assert scheme + "://" + netloc + rest == a + "//" + netloc + rest;
    SiteSplit(a, netloc, rest);
    JoinThree(a, [], netloc, "/");
    assert a + "/" + [] + "/" + netloc == scheme + "://" + netloc;
  }

  /** `a//netloc` followed by a path splits at `/` into `a`, an empty piece
      and the host, then the path's pieces. */
  lemma SiteSplit(a: string, netloc: string, rest: string)
    requires '/' !in a && '/' !in netloc
    requires rest == [] || rest[0] == '/'
    ensures |Split(a + "//" + netloc + rest, '/')| >= 3
    ensures Split(a + "//" + netloc + rest, '/')[..3] == [a, [], netloc]
  {
    assert a + "//" + netloc + rest == a + "//" + (netloc + rest);
    DoubleSlashSplit(a, netloc + rest);
    HostSplit(netloc, rest);
  }

  /** `a//b` splits at `/` into `a`, an empty piece and the pieces of `b`. */
  lemma DoubleSlashSplit(a: string, b: string)
    requires '/' !in a
    ensures Split(a + "//" + b, '/') == [a, []] + Split(b, '/')
  {
    assert a + "//" + b == a + ['/'] + ([] + ['/'] + b);
    SplitConcat(a, [] + ['/'] + b, '/');
    SplitConcat([], b, '/');
    SplitNoSep(a, '/');
    assert Split([], '/') == [[]];
  }

  /** The host is the first `/`-piece of the host followed by a path. */
  lemma HostSplit(netloc: string, rest: string)
    requires '/' !in netloc
    requires rest == [] || rest[0] == '/'
    ensures Split(netloc + rest, '/') != [] && Split(netloc + rest, '/')[0] == netloc
  {
    SplitNoSep(netloc, '/');
    if rest == [] {
      assert netloc + rest == netloc;
    } else {
      assert netloc + rest == netloc + ['/'] + rest[1..];
      SplitConcat(netloc, rest[1..], '/');
    }
  }

  /** Joining three pieces puts the glue between each neighbouring pair. */
  lemma JoinThree(a: string, b: string, c: string, glue: string)
    ensures Join([a, b, c], glue) == a + glue + b + glue + c
  {
    assert [a, b, c][1..] == [b, c];
    JoinTwo(b, c, glue);
  }

  /** The site of a page URL with a scheme and a host, whose path starts
      with `/`, is its scheme and host, and that is the site the REST URL is
      built on. */
  lemma SiteUrlMatchesApiUrl(u: Url, id: string)
    requires u.scheme != [] && u.netloc != []
    requires '/' !in u.scheme && '/' !in u.netloc
    requires u.path != [] && u.path[0] == '/'
    ensures SiteUrl(UrlText(u)) == u.scheme + "://" + u.netloc
    ensures SiteUrl(ApiUrl(u, id)) == u.scheme + "://" + u.netloc
  {
    var q := if u.query == [] then "" else "?" + u.query;
    var rest := u.path + q;
    assert UrlText(u) == u.scheme + "://" + u.netloc + rest;
    SiteUrlOf(u.scheme, u.netloc, rest);
    var rest2 := ApiPath + id + ApiQuery;
    assert ApiUrl(u, id) == u.scheme + "://" + u.netloc + rest2;
    SiteUrlOf(u.scheme, u.netloc, rest2);
  }
}
