/** The wikipedia field (modules/ui/fields/wikipedia.js): the language combo,
    the language lookup with its fallbacks, turning a pasted wikipedia.org URL
    into a `wikipedia=lang:title` tag, reading such a tag back into the inputs
    and a view URL, and the follow-up that sets `wikidata` on the edited
    entities. */
module FieldWikipedia {
  import opened Common
  import opened Strings
  import opened OsmGraph

  /** One row of the site matrix: `[name, localName, code]`. */
  datatype Site = Site(name: string, localName: string, code: string)

  const DEFAULT_SITE: Site := Site("English", "English", "en")

  const WIKIPEDIA_HOST: string := ".wikipedia.org/"
  const VIEW_PREFIX: string := ".wikipedia.org/wiki/"
  const SEARCH_URL: string := "https://en.wikipedia.org/wiki/Special:Search?search="

  // ---------------------------------------------------------------------------
  // language combo and language()

  /** The combo keeps a site when the lower-cased input occurs in one of its
      three fields, lower-cased. */
  predicate SuggestionMatches(d: Site, v: string) {
    Contains(ToLower(d.name), v) || Contains(ToLower(d.localName), v) || Contains(ToLower(d.code), v)
  }

  function LocalNames(data: seq<Site>): (r: seq<string>)
    ensures |r| == |data| && forall i :: 0 <= i < |data| ==> r[i] == data[i].localName
  {
    seq(|data|, i requires 0 <= i < |data| => data[i].localName)
  }

  /** `_dataWikipedia.filter(...).map(d => d[1])` for an already lower-cased v. */
  function SuggestionsFor(data: seq<Site>, v: string): seq<string> {
    if |data| == 0 then []
    else if SuggestionMatches(data[0], v) then [data[0].localName] + SuggestionsFor(data[1..], v)
    else SuggestionsFor(data[1..], v)
  }

  /** The langCombo fetcher. */
  function LangSuggestions(data: seq<Site>, value: string): seq<string> {
    SuggestionsFor(data, ToLower(value))
  }

  /** The suggestions are the local names of exactly the matching sites, in the
      order of the site matrix. */
  lemma {:induction false} LangSuggestionsSpec(data: seq<Site>, value: string)
    ensures IsSubsequence(LangSuggestions(data, value), LocalNames(data))
    ensures forall i :: 0 <= i < |data| && SuggestionMatches(data[i], ToLower(value)) ==>
      data[i].localName in LangSuggestions(data, value)
    ensures forall x :: x in LangSuggestions(data, value) ==>
      exists i :: 0 <= i < |data| && SuggestionMatches(data[i], ToLower(value)) && data[i].localName == x
  {
    SuggestionsForSpec(data, ToLower(value));
  }

  lemma {:induction false} SuggestionsForSpec(data: seq<Site>, v: string)
    ensures IsSubsequence(SuggestionsFor(data, v), LocalNames(data))
    ensures forall i :: 0 <= i < |data| && SuggestionMatches(data[i], v) ==> data[i].localName in SuggestionsFor(data, v)
    ensures forall x :: x in SuggestionsFor(data, v) ==>
      exists i :: 0 <= i < |data| && SuggestionMatches(data[i], v) && data[i].localName == x
  {
    if |data| > 0 {
      var tail := data[1..];
      SuggestionsForSpec(tail, v);
      var rest := SuggestionsFor(tail, v);
      assert LocalNames(data) == [data[0].localName] + LocalNames(tail);
      if SuggestionMatches(data[0], v) {
        SubsequenceCons(data[0].localName, rest, LocalNames(tail));
      } else {
        SubsequenceOfTailAll(rest, LocalNames(data));
      }
      forall i | 0 <= i < |data| && SuggestionMatches(data[i], v) ensures data[i].localName in SuggestionsFor(data, v) {
        if i > 0 {
          assert data[i] == tail[i - 1];
        }
      }
      forall x | x in SuggestionsFor(data, v)
        ensures exists i :: 0 <= i < |data| && SuggestionMatches(data[i], v) && data[i].localName == x
      {
        if x in rest {
          var j :| 0 <= j < |tail| && SuggestionMatches(tail[j], v) && tail[j].localName == x;
          assert data[j + 1] == tail[j];
        } else {
          assert SuggestionMatches(data[0], v) && data[0].localName == x;
        }
      }
    }
  }

  /** The first test of `language()`'s find, for a lower-cased v. */
  predicate NamesInput(d: Site, v: string) {
    ToLower(d.name) == v || ToLower(d.localName) == v || d.code == v
  }

  /** The first index at or after `from` of a site the input names, or |data|. */
  function FindInput(data: seq<Site>, v: string, from: nat): (i: nat)
    requires from <= |data|
    ensures from <= i <= |data|
    ensures i < |data| ==> NamesInput(data[i], v)
    ensures forall k :: from <= k < i ==> !NamesInput(data[k], v)
    decreases |data| - from
  {
    if from == |data| then |data|
    else if NamesInput(data[from], v) then from
    else FindInput(data, v, from + 1)
  }

  /** The index of the last site with the given code, or -1. */
  function LastWithCode(data: seq<Site>, code: string): (i: int)
    ensures -1 <= i < |data|
    ensures i >= 0 ==> data[i].code == code
    ensures forall k :: i < k < |data| ==> data[k].code != code
  {
    if |data| == 0 then -1
    else if data[|data| - 1].code == code then |data| - 1
    else LastWithCode(data[..|data| - 1], code)
  }

  /** `language()`: the first site the language input names; failing that the
      last site whose code is the locale (the find visits the whole matrix and
      keeps overwriting `localeLanguage`); failing that English. */
  function Language(data: seq<Site>, input: string, locale: string): (r: Site)
    ensures (exists i :: 0 <= i < |data| && NamesInput(data[i], ToLower(input))) ==>
      exists i :: 0 <= i < |data| && r == data[i] && NamesInput(data[i], ToLower(input)) &&
        forall k :: 0 <= k < i ==> !NamesInput(data[k], ToLower(input))
    ensures ((forall i :: 0 <= i < |data| ==> !NamesInput(data[i], ToLower(input))) &&
             (exists i :: 0 <= i < |data| && data[i].code == ToLower(locale))) ==>
      exists i :: 0 <= i < |data| && r == data[i] && data[i].code == ToLower(locale) &&
        forall k :: i < k < |data| ==> data[k].code != ToLower(locale)
    ensures (forall i :: 0 <= i < |data| ==> !NamesInput(data[i], ToLower(input)) && data[i].code != ToLower(locale)) ==>
      r == DEFAULT_SITE
  {
    var v := ToLower(input);
    var i := FindInput(data, v, 0);
    if i < |data| then data[i]
    else
      var j := LastWithCode(data, ToLower(locale));
      if j >= 0 then data[j] else DEFAULT_SITE
  }

  /** `_dataWikipedia.find(d => code === d[2])`. */
  function FindCode(data: seq<Site>, code: string): (r: Option<Site>)
    ensures r.None? <==> forall i :: 0 <= i < |data| ==> data[i].code != code
    ensures r.Some? ==>
      exists i :: 0 <= i < |data| && data[i] == r.value && r.value.code == code &&
        forall k :: 0 <= k < i ==> data[k].code != code
  {
    if |data| == 0 then None
    else if data[0].code == code then Some(data[0])
    else
      var r := FindCode(data[1..], code);
      assert forall k :: 1 <= k < |data| ==> data[k] == data[1..][k - 1];
      r
  }

  // ---------------------------------------------------------------------------
  // The two regular expressions, as explicit scanners.
  //   URL: https?://([-a-z]+).wikipedia.org/(?:wiki|\1-[-a-z]+)/([^#]+)(?:#(.+))?
  //   tag: ([^:]+):([^#]+)(?:#(.+))?
  // Neither is anchored, so the match is the one at the leftmost start.

  /** The three capture groups; the anchor is None when its group did not take part. */
  datatype WikiMatch = WikiMatch(lang: string, title: string, anchor: Option<string>)

  datatype Titled = Titled(title: string, anchor: Option<string>)

  predicate IsLangChar(c: char) {
    c == '-' || 'a' <= c <= 'z'
  }

  /** The end of the run of `[-a-z]` characters starting at `from`. */
  function LangRunEnd(s: string, from: nat): (i: nat)
    requires from <= |s|
    ensures from <= i <= |s|
    ensures i < |s| ==> !IsLangChar(s[i])
    ensures forall k :: from <= k < i ==> IsLangChar(s[k])
    decreases |s| - from
  {
    if from == |s| then |s|
    else if !IsLangChar(s[from]) then from
    else LangRunEnd(s, from + 1)
  }

  /** `(?:#(.+))?` at index h: a `#` and then the longest non-empty run of
      characters other than line terminators. */
  function AnchorAt(s: string, h: nat): (r: Option<string>)
    requires h <= |s|
    ensures r.Some? ==> |r.value| > 0 && forall k :: 0 <= k < |r.value| ==> !IsLineTerminator(r.value[k])
  {
    if h + 1 < |s| && s[h] == '#' && !IsLineTerminator(s[h + 1])
    then Some(s[h + 1..FindLineTerminator(s, h + 1)])
    else None
  }

  /** `([^#]+)(?:#(.+))?` at index t: the greedy title stops at the first '#'. */
  function TitleFrom(s: string, t: nat): (r: Option<Titled>)
    requires t <= |s|
    ensures r.Some? ==> |r.value.title| > 0 && '#' !in r.value.title
    ensures r.Some? && r.value.anchor.Some? ==>
      |r.value.anchor.value| > 0 && forall k :: 0 <= k < |r.value.anchor.value| ==> !IsLineTerminator(r.value.anchor.value[k])
  {
    var h := FindChar(s, '#', t);
    if h == t then None
    else
      assert forall k :: 0 <= k < h - t ==> s[t..h][k] == s[t + k];
      Some(Titled(s[t..h], AnchorAt(s, h)))
  }

  /** The URL expression tried at start index p. The two alternatives after the
      host cannot both succeed: `wiki/` is never the language followed by '-'. */
  function MatchUrlAt(s: string, p: nat): (r: Option<WikiMatch>)
    requires p <= |s|
    ensures r.Some? ==> |r.value.lang| > 0 && forall k :: 0 <= k < |r.value.lang| ==> IsLangChar(r.value.lang[k])
  {
    var q := if OccursAt(s, "https://", p) then p + 8 else if OccursAt(s, "http://", p) then p + 7 else p;
    if q == p then None
    else
      var e := LangRunEnd(s, q);
      if e == q || !OccursAt(s, WIKIPEDIA_HOST, e) then None
      else
        var lang := s[q..e];
        assert forall k :: 0 <= k < |lang| ==> lang[k] == s[q + k];
        var r := e + |WIKIPEDIA_HOST|;
        var viaWiki := if OccursAt(s, "wiki/", r) then TitleFrom(s, r + 5) else None;
        var viaVariant :=
          if OccursAt(s, lang + "-", r) then
            var e2 := LangRunEnd(s, r + |lang| + 1);
            if e2 > r + |lang| + 1 && e2 < |s| && s[e2] == '/' then TitleFrom(s, e2 + 1) else None
          else None;
        var t := if viaWiki.Some? then viaWiki else viaVariant;
        if t.Some? then Some(WikiMatch(lang, t.value.title, t.value.anchor)) else None
  }

  /** The leftmost match of the URL expression at or after p. */
  function SearchUrl(s: string, p: nat): Option<WikiMatch>
    requires p <= |s|
    decreases |s| - p
  {
    var m := MatchUrlAt(s, p);
    if m.Some? then m else if p == |s| then None else SearchUrl(s, p + 1)
  }

  /** `value.match(urlExpression)`. */
  function MatchUrl(s: string): Option<WikiMatch> {
    SearchUrl(s, 0)
  }

  /** The tag expression tried at start index p: the language is everything up
      to the first ':' and must not be empty. */
  function MatchTagAt(s: string, p: nat): (r: Option<WikiMatch>)
    requires p <= |s|
    ensures r.Some? ==> |r.value.lang| > 0 && ':' !in r.value.lang
  {
    var c := FindChar(s, ':', p);
    if c == p || c == |s| then None
    else
      assert forall k :: 0 <= k < c - p ==> s[p..c][k] == s[p + k];
      var t := TitleFrom(s, c + 1);
      if t.Some? then Some(WikiMatch(s[p..c], t.value.title, t.value.anchor)) else None
  }

  function SearchTag(s: string, p: nat): Option<WikiMatch>
    requires p <= |s|
    decreases |s| - p
  {
    var m := MatchTagAt(s, p);
    if m.Some? then m else if p == |s| then None else SearchTag(s, p + 1)
  }

  /** `value.match(tagExpression)`. */
  function MatchTag(s: string): Option<WikiMatch> {
    SearchTag(s, 0)
  }

  // Scanner facts used by the round trips below.

  lemma FindCharIs(s: string, c: char, from: nat, i: nat)
    requires from <= i <= |s| && (i == |s| || s[i] == c)
    requires forall k :: from <= k < i ==> s[k] != c
    ensures FindChar(s, c, from) == i
  {
  }

  lemma LangRunEndIs(s: string, from: nat, i: nat)
    requires from <= i <= |s| && (i == |s| || !IsLangChar(s[i]))
    requires forall k :: from <= k < i ==> IsLangChar(s[k])
    ensures LangRunEnd(s, from) == i
  {
  }

  lemma FindLineTerminatorIs(s: string, from: nat, i: nat)
    requires from <= i <= |s| && (i == |s| || IsLineTerminator(s[i]))
    requires forall k :: from <= k < i ==> !IsLineTerminator(s[k])
    ensures FindLineTerminator(s, from) == i
  {
  }

  /** `#anchor` in the string form the tag and the view URL use. */
  function AnchorSuffix(anchor: Option<string>): string {
    if anchor.Some? && anchor.value != "" then "#" + anchor.value else ""
  }

  predicate NoLineTerminator(s: string) {
    forall k :: 0 <= k < |s| ==> !IsLineTerminator(s[k])
  }

  lemma OccursInPrefix(pre: string, rest: string, x: string, i: nat)
    requires OccursAt(pre, x, i)
    ensures OccursAt(pre + rest, x, i)
  {
    assert (pre + rest)[i..i + |x|] == pre[i..i + |x|];
  }

  /** An optional anchor written at index |pre| reads back as it was written. */
  lemma AnchorReadsBack(pre: string, anchor: Option<string>)
    requires anchor.Some? ==> |anchor.value| > 0 && NoLineTerminator(anchor.value)
    ensures AnchorAt(pre + AnchorSuffix(anchor), |pre|) == anchor
  {
    if anchor.Some? {
      var a := anchor.value;
      var s := pre + "#" + a;
      var h := |pre|;
      assert s == pre + AnchorSuffix(anchor);
      assert s[h] == '#' && s[h + 1] == a[0];
      forall k | h + 1 <= k < |s| ensures !IsLineTerminator(s[k]) {
        assert s[k] == a[k - h - 1];
      }
      FindLineTerminatorIs(s, h + 1, |s|);
      assert s[h + 1..|s|] == a;
      assert !IsLineTerminator(s[h + 1]);
      assert AnchorAt(s, h) == Some(a);
    }
  }

  /** A title and an optional anchor written at index |pre| read back as they
      were written. */
  lemma TitleFromReadsBack(pre: string, title: string, anchor: Option<string>)
    requires |title| > 0 && '#' !in title
    requires anchor.Some? ==> |anchor.value| > 0 && NoLineTerminator(anchor.value)
    ensures TitleFrom(pre + title + AnchorSuffix(anchor), |pre|) == Some(Titled(title, anchor))
  {
    var s := pre + title + AnchorSuffix(anchor);
    var t := |pre|;
    var h := t + |title|;
    forall k | t <= k < h ensures s[k] != '#' {
      assert s[k] == title[k - t];
    }
    assert h < |s| ==> s[h] == '#';
    FindCharIs(s, '#', t, h);
    assert s[t..h] == title;
    AnchorReadsBack(pre + title, anchor);
  }

  /** A tag written as `code:title#anchor` parses back into its parts, whatever
      the title contains besides '#'. */
  lemma TagReadsBack(code: string, title: string, anchor: Option<string>)
    requires |code| > 0 && ':' !in code
    requires |title| > 0 && '#' !in title
    requires anchor.Some? ==> |anchor.value| > 0 && NoLineTerminator(anchor.value)
    ensures MatchTag(code + ":" + title + AnchorSuffix(anchor)) == Some(WikiMatch(code, title, anchor))
  {
    var pre := code + ":";
    var s := pre + title + AnchorSuffix(anchor);
    var c := |code|;
    forall k | 0 <= k < c ensures s[k] != ':' {
      assert s[k] == code[k];
    }
    assert s[c] == ':';
    FindCharIs(s, ':', 0, c);
    TitleFromReadsBack(pre, title, anchor);
    assert s[0..c] == code;
  }

  /** The scanner steps over `https://code.wikipedia.org/wiki/`. */
  lemma UrlHeaderScans(code: string, rest: string)
    requires |code| > 0 && forall k :: 0 <= k < |code| ==> IsLangChar(code[k])
    ensures var s := "https://" + code + VIEW_PREFIX + rest;
      var e := 8 + |code|;
      && OccursAt(s, "https://", 0)
      && LangRunEnd(s, 8) == e
      && s[8..e] == code
      && OccursAt(s, WIKIPEDIA_HOST, e)
      && OccursAt(s, "wiki/", e + |WIKIPEDIA_HOST|)
  {
    var pre := "https://" + code + VIEW_PREFIX;
    var s := pre + rest;
    var e := 8 + |code|;
    assert pre[0..8] == "https://";
    OccursInPrefix(pre, rest, "https://", 0);
    forall k | 8 <= k < e ensures IsLangChar(s[k]) {
      assert s[k] == code[k - 8];
    }
    assert s[e] == '.';
    LangRunEndIs(s, 8, e);
    assert pre[e..] == VIEW_PREFIX;
    assert VIEW_PREFIX[..|WIKIPEDIA_HOST|] == WIKIPEDIA_HOST;
    assert pre[e..e + |WIKIPEDIA_HOST|] == pre[e..][..|WIKIPEDIA_HOST|];
    OccursInPrefix(pre, rest, WIKIPEDIA_HOST, e);
    var r := e + |WIKIPEDIA_HOST|;
    assert VIEW_PREFIX[|WIKIPEDIA_HOST|..] == "wiki/";
    assert pre[r..r + 5] == pre[e..][|WIKIPEDIA_HOST|..];
    OccursInPrefix(pre, rest, "wiki/", r);
    assert s[8..e] == code;
  }

  /** A view URL `https://code.wikipedia.org/wiki/title#anchor` matches the URL
      expression with the same parts. */
  lemma UrlReadsBack(code: string, title: string, anchor: Option<string>)
    requires |code| > 0 && forall k :: 0 <= k < |code| ==> IsLangChar(code[k])
    requires |title| > 0 && '#' !in title
    requires anchor.Some? ==> |anchor.value| > 0 && NoLineTerminator(anchor.value)
    ensures MatchUrl("https://" + code + VIEW_PREFIX + title + AnchorSuffix(anchor)) == Some(WikiMatch(code, title, anchor))
  {
    var pre := "https://" + code + VIEW_PREFIX;
    var rest := title + AnchorSuffix(anchor);
    var s := pre + title + AnchorSuffix(anchor);
    assert s == pre + rest;
    UrlHeaderScans(code, rest);
    TitleFromReadsBack(pre, title, anchor);
    assert 8 + |code| + |WIKIPEDIA_HOST| + 5 == |pre|;
    assert MatchUrlAt(s, 0) == Some(WikiMatch(code, title, anchor));
  }

  // ---------------------------------------------------------------------------
  // change(): from the title input to the wikipedia tag

  /** The title and anchor of a recognised URL, decoded, with '_' turned into
      spaces and the first character upper-cased; None when decoding throws.
      `decode` stands for decodeURIComponent, None meaning a URIError. */
  function NormalizedTitle(m: WikiMatch, decode: string -> Option<string>): (r: Option<string>)
    ensures r.Some? <==> decode(m.title).Some? && (m.anchor.Some? && m.anchor.value != "" ==> decode(m.anchor.value).Some?)
    ensures r.Some? ==> '_' !in r.value
    // the title part: '_' read as a space, the first character upper-cased
    ensures r.Some? ==> var t := decode(m.title).value;
      && |t| <= |r.value|
      && (|t| > 0 ==> r.value[0] == UpperChar(if t[0] == '_' then ' ' else t[0]))
      && forall k :: 1 <= k < |t| ==> r.value[k] == if t[k] == '_' then ' ' else t[k]
    ensures r.Some? && !(m.anchor.Some? && m.anchor.value != "") ==> |r.value| == |decode(m.title).value|
    // the anchor part, after a '#' at the title's length
    ensures r.Some? && m.anchor.Some? && m.anchor.value != "" ==>
      var t := decode(m.title).value;
      var a := decode(m.anchor.value).value;
      && |r.value| == |t| + 1 + |a|
      && r.value[|t|] == '#'
      && forall j :: 0 <= j < |a| ==> r.value[|t| + 1 + j] == if a[j] == '_' then ' ' else a[j]
  {
    var title := decode(m.title);
    if title.None? then None
    else
      var value := Replace(title.value, '_', ' ');
      if m.anchor.Some? && m.anchor.value != "" then
        var anchor := decode(m.anchor.value);
        if anchor.None? then None
        else
          var spaced := Replace(anchor.value, '_', ' ');
          assert '_' !in spaced;
          var whole := value + "#" + spaced;
          assert forall k :: 0 <= k < |value| ==> whole[k] == value[k];
          assert whole[|value|] == '#';
          assert forall j :: 0 <= j < |spaced| ==> whole[|value| + 1 + j] == spaced[j];
          Some(UpperFirst(whole))
      else Some(UpperFirst(value))
  }

  /** `syncTags.wikipedia`: `code:value` cut to the maximum tag length, or
      undefined (None) for an empty value. */
  function SyncTag(code: string, value: string, maxChars: nat): (r: Option<string>)
    ensures r.None? <==> value == ""
    ensures r.Some? ==>
      |r.value| == Min(maxChars, |code| + 1 + |value|) && r.value == (code + ":" + value)[..|r.value|]
  {
    if value != "" then Some(Take(code + ":" + value, maxChars)) else None
  }

  /** A tag that fits, with a language code free of ':', reads back as the code
      and the title it was built from. */
  lemma SyncTagReadsBack(code: string, title: string, anchor: Option<string>, maxChars: nat)
    requires |code| > 0 && ':' !in code
    requires |title| > 0 && '#' !in title
    requires anchor.Some? ==> |anchor.value| > 0 && NoLineTerminator(anchor.value)
    requires |code| + 1 + |title + AnchorSuffix(anchor)| <= maxChars
    ensures var tag := SyncTag(code, title + AnchorSuffix(anchor), maxChars);
      tag.Some? && MatchTag(tag.value) == Some(WikiMatch(code, title, anchor))
  {
    var value := title + AnchorSuffix(anchor);
    var whole := code + ":" + value;
    assert whole == code + ":" + title + AnchorSuffix(anchor);
    assert Take(whole, maxChars) == whole;
    TagReadsBack(code, title, anchor);
  }

  /** The wikidata lookup `change` starts: the language code and the title. */
  datatype WikidataQuery = WikidataQuery(code: string, title: string)

  datatype ChangeOutcome =
    | Threw   // decodeURIComponent threw: nothing is dispatched
    | Dispatched(wikipedia: Option<string>, query: Option<WikidataQuery>)

  // ---------------------------------------------------------------------------
  // updateForTags(): from the tag to the inputs and the view URL

  /** The anchor as the view URL writes it: spaces to '_', then percent-encoded
      with '%' turned into '.'; when encoding throws, only the spaces change.
      `encode` stands for encodeURIComponent, None meaning a URIError. */
  function EncodeAnchor(anchor: string, encode: string -> Option<string>): (r: string)
    ensures encode(Replace(anchor, ' ', '_')).None? ==> r == Replace(anchor, ' ', '_')
    ensures encode(Replace(anchor, ' ', '_')).Some? ==> '%' !in r
  {
    var underscored := Replace(anchor, ' ', '_');
    var encoded := encode(underscored);
    if encoded.Some? then Replace(encoded.value, '%', '.') else underscored
  }

  /** What updateForTags does to the inputs: the new language input (None:
      left as it was), the new title input and `_wikiURL`. */
  datatype TagView = TagView(langInput: Option<string>, titleInput: string, wikiURL: string)

  /** updateForTags on the field's value: a recognised `code:title#anchor`
      shows the site and the title and links to the article; any other
      non-empty value is shown as the title, clears the language and links to
      an English search; an empty value clears the link. */
  function ViewOf(data: seq<Site>, value: string, encode: string -> Option<string>): (r: TagView)
    ensures r.wikiURL == "" <==> value == ""
    ensures var m := MatchTag(value);
      m.Some? && FindCode(data, m.value.lang).Some? ==>
        && r.langInput == Some(FindCode(data, m.value.lang).value.localName)
        && r.titleInput == m.value.title + AnchorSuffix(m.value.anchor)
        && r.wikiURL == "https://" + m.value.lang + VIEW_PREFIX + Replace(m.value.title, ' ', '_') +
             AnchorSuffix(if m.value.anchor.Some? then Some(EncodeAnchor(m.value.anchor.value, encode)) else None)
    ensures var m := MatchTag(value);
      !(m.Some? && FindCode(data, m.value.lang).Some?) ==>
        && r.titleInput == value
        && (value != "" ==> r.langInput == Some("") && r.wikiURL == SEARCH_URL + value)
        && (value == "" ==> r.langInput.None?)
  {
    var m := MatchTag(value);
    var l := if m.Some? then FindCode(data, m.value.lang) else None;
    if l.Some? then
      var anchor := m.value.anchor;
      var title := m.value.title + AnchorSuffix(anchor);
      var encoded := if anchor.Some? then Some(EncodeAnchor(anchor.value, encode)) else None;
      TagView(Some(l.value.localName), title,
        "https://" + m.value.lang + VIEW_PREFIX + Replace(m.value.title, ' ', '_') + AnchorSuffix(encoded))
    else if value != "" then TagView(Some(""), value, SEARCH_URL + value)
    else TagView(None, value, "")
  }

  /** The view link of a recognised tag whose code is a language code points at
      the article: the URL expression reads back the code, the title with '_'
      for spaces and the anchor as encoded for the link. */
  lemma ViewUrlReadsBack(data: seq<Site>, code: string, title: string, anchor: Option<string>,
                         encode: string -> Option<string>)
    requires FindCode(data, code).Some?
    requires |code| > 0 && forall k :: 0 <= k < |code| ==> IsLangChar(code[k])
    requires |title| > 0 && '#' !in title
    requires anchor.Some? ==> |anchor.value| > 0 && NoLineTerminator(anchor.value)
    requires anchor.Some? ==>
      var e := EncodeAnchor(anchor.value, encode); |e| > 0 && NoLineTerminator(e)
    ensures var v := ViewOf(data, code + ":" + title + AnchorSuffix(anchor), encode);
      var encoded := if anchor.Some? then Some(EncodeAnchor(anchor.value, encode)) else None;
      MatchUrl(v.wikiURL) == Some(WikiMatch(code, Replace(title, ' ', '_'), encoded)) &&
      v.titleInput == title + AnchorSuffix(anchor)
  {
    TagReadsBack(code, title, anchor);
    var t := Replace(title, ' ', '_');
    assert '#' !in t by {
      forall k | 0 <= k < |t| ensures t[k] != '#' {
        assert title[k] != '#';
      }
    }
    var encoded := if anchor.Some? then Some(EncodeAnchor(anchor.value, encode)) else None;
    UrlReadsBack(code, t, encoded);
  }

  /** Pasting back the view link of an article title restores that title, when
      decoding leaves the path alone and the title has no '_' or '#' and
      starts with a character upper-casing keeps. */
  lemma PastedViewUrlRestoresTitle(code: string, title: string, decode: string -> Option<string>)
    requires |code| > 0 && forall k :: 0 <= k < |code| ==> IsLangChar(code[k])
    requires |title| > 0 && '#' !in title && '_' !in title && UpperChar(title[0]) == title[0]
    requires decode(Replace(title, ' ', '_')) == Some(Replace(title, ' ', '_'))
    ensures var t := Replace(title, ' ', '_');
      MatchUrl("https://" + code + VIEW_PREFIX + t) == Some(WikiMatch(code, t, None)) &&
      NormalizedTitle(WikiMatch(code, t, None), decode) == Some(title)
  {
    var t := Replace(title, ' ', '_');
    assert '#' !in t by {
      forall k | 0 <= k < |t| ensures t[k] != '#' {
        assert title[k] != '#';
      }
    }
    UrlReadsBack(code, t, None);
    assert "https://" + code + VIEW_PREFIX + t + AnchorSuffix(None) == "https://" + code + VIEW_PREFIX + t;
    var back := Replace(t, '_', ' ');
    assert back == title by {
      forall k | 0 <= k < |title| ensures back[k] == title[k] {
        assert title[k] != '_';
      }
    }
    var up := UpperFirst(title);
    assert up == title by {
      assert up[0] == title[0] && up[1..] == title[1..];
      assert up == [up[0]] + up[1..];
      assert title == [title[0]] + title[1..];
    }
  }

  // ---------------------------------------------------------------------------
  // The wikidata follow-up

  /** `id.match(/^Q\d+$/)`. */
  predicate IsQid(k: string) {
    |k| >= 2 && k[0] == 'Q' && forall i :: 1 <= i < |k| ==> IsDigit(k[i])
  }

  /** `qids.find(id => id.match(/^Q\d+$/))`. */
  function FirstQid(keys: seq<string>): (r: Option<string>)
    ensures r.None? <==> forall i :: 0 <= i < |keys| ==> !IsQid(keys[i])
    ensures r.Some? ==>
      IsQid(r.value) && r.value in keys && forall i :: 0 <= i < IndexOf(keys, r.value) ==> !IsQid(keys[i])
  {
    if |keys| == 0 then None
    else if IsQid(keys[0]) then Some(keys[0])
    else
      assert forall i :: 1 <= i < |keys| ==> keys[i] == keys[1..][i - 1];
      FirstQid(keys[1..])
  }

  /** The `wikidata` tag, None when absent. */
  function WikidataTag(tags: Tags): Option<string> {
    if "wikidata" in tags then Some(tags["wikidata"]) else None
  }

  /** `currTags.wikidata = value`: an undefined value leaves no tag. */
  function WithWikidata(tags: Tags, value: Option<string>): (r: Tags)
    ensures WikidataTag(r) == value
    ensures forall k :: k != "wikidata" ==> (k in r <==> k in tags) && (k in r ==> r[k] == tags[k])
  {
    if value.Some? then tags["wikidata" := value.value] else tags - {"wikidata"}
  }

  /** Setting the wikidata tag to the value it already has changes nothing. */
  lemma WithWikidataSame(tags: Tags, value: Option<string>)
    requires WikidataTag(tags) == value
    ensures WithWikidata(tags, value) == tags
  {
    var r := WithWikidata(tags, value);
    assert forall k :: k in r <==> k in tags;
  }

  /** One `actionChangeTags(entityID, tags)`. */
  datatype TagChange = TagChange(id: Id, tags: Tags)

  /** The change actions of the callback: one for each entity whose wikidata
      tag differs from the value, in the order of the entity IDs. */
  function TagChanges(g: Graph, ids: seq<Id>, value: Option<string>): seq<TagChange>
    requires AllPresent(g, ids)
  {
    if |ids| == 0 then []
    else
      var front := ids[..|ids| - 1];
      assert forall i :: 0 <= i < |front| ==> front[i] == ids[i];
      var id := ids[|ids| - 1];
      var tags := g.entities[id].tags;
      TagChanges(g, front, value) + if WikidataTag(tags) != value then [TagChange(id, WithWikidata(tags, value))] else []
  }

  predicate AllPresent(g: Graph, ids: seq<Id>) {
    forall i :: 0 <= i < |ids| ==> ids[i] in g.entities
  }

  /** No action exactly when every entity already carries the value. */
  lemma {:induction false} TagChangesEmpty(g: Graph, ids: seq<Id>, value: Option<string>)
    requires AllPresent(g, ids)
    ensures |TagChanges(g, ids, value)| == 0 <==> forall i :: 0 <= i < |ids| ==> WikidataTag(g.entities[ids[i]].tags) == value
  {
    if |ids| > 0 {
      var front := ids[..|ids| - 1];
      assert forall i :: 0 <= i < |front| ==> front[i] == ids[i];
      TagChangesEmpty(g, front, value);
    }
  }

  /** What the wikidata callback does once the lookup answers: nothing (None) on
      an error, on no or empty data, when the graph is no longer the one
      captured by `change`, or when no entity needs a change; otherwise the
      change actions the overwrite applies. `keys` are `Object.keys(data)`. */
  function WikidataFollowUp(initGraph: Graph, current: Graph, ids: seq<Id>, err: bool,
                            keys: Option<seq<string>>): (r: Option<seq<TagChange>>)
    requires current == initGraph ==> AllPresent(current, ids)
    ensures err || keys.None? || |keys.value| == 0 || current != initGraph ==> r.None?
    ensures r.Some? ==> |r.value| > 0 && r.value == TagChanges(current, ids, FirstQid(keys.value))
  {
    if err || keys.None? || |keys.value| == 0 then None
    else if current != initGraph then None
    else
      var changes := TagChanges(current, ids, FirstQid(keys.value));
      if |changes| == 0 then None else Some(changes)
  }

  /** The callback overwrites exactly when it is allowed to and some entity's
      wikidata tag differs from the first Q-identifier. */
  lemma WikidataFollowUpWhen(initGraph: Graph, current: Graph, ids: seq<Id>, err: bool, keys: Option<seq<string>>)
    requires current == initGraph ==> AllPresent(current, ids)
    ensures WikidataFollowUp(initGraph, current, ids, err, keys).Some? <==>
      !err && keys.Some? && |keys.value| > 0 && current == initGraph &&
      exists i :: 0 <= i < |ids| && WikidataTag(current.entities[ids[i]].tags) != FirstQid(keys.value)
  {
    if !err && keys.Some? && |keys.value| > 0 && current == initGraph {
      TagChangesEmpty(current, ids, FirstQid(keys.value));
    }
  }

  /** `actionChangeTags(id, tags)(graph)`. */
  function ChangeTags(g: Graph, c: TagChange): Graph
    requires c.id in g.entities
  {
    g.(entities := g.entities[c.id := g.entities[c.id].(tags := c.tags)])
  }

  /** The actions applied in order; they keep the set of entity IDs. */
  function ApplyChanges(g: Graph, cs: seq<TagChange>): (r: Graph)
    requires forall i :: 0 <= i < |cs| ==> cs[i].id in g.entities
    ensures r.entities.Keys == g.entities.Keys
  {
    if |cs| == 0 then g
    else
      var front := cs[..|cs| - 1];
      assert forall i :: 0 <= i < |front| ==> front[i] == cs[i];
      ChangeTags(ApplyChanges(g, front), cs[|cs| - 1])
  }

  lemma TagChangesPresent(g: Graph, ids: seq<Id>, value: Option<string>)
    requires AllPresent(g, ids)
    ensures forall i :: 0 <= i < |TagChanges(g, ids, value)| ==> TagChanges(g, ids, value)[i].id in ids
  {
    if |ids| > 0 {
      var front := ids[..|ids| - 1];
      assert forall i :: 0 <= i < |front| ==> front[i] == ids[i];
      TagChangesPresent(g, front, value);
    }
  }

  /** g2 is g with the wikidata tag of the listed entities set to the value. */
  ghost predicate Overwritten(g: Graph, g2: Graph, ids: seq<Id>, value: Option<string>) {
    && g2.entities.Keys == g.entities.Keys
    && (forall x :: x in g.entities && x in ids ==> g2.entities[x] == g.entities[x].(tags := WithWikidata(g.entities[x].tags, value)))
    && (forall x :: x in g.entities && x !in ids ==> g2.entities[x] == g.entities[x])
  }

  /** One more entity: a change for it, or none when it already has the value. */
  lemma OverwrittenStep(g: Graph, before: Graph, after: Graph, front: seq<Id>, id: Id, value: Option<string>)
    requires id in g.entities && Overwritten(g, before, front, value)
    requires after == (if WikidataTag(g.entities[id].tags) != value
                       then ChangeTags(before, TagChange(id, WithWikidata(g.entities[id].tags, value)))
                       else before)
    ensures Overwritten(g, after, front + [id], value)
  {
    var tags := g.entities[id].tags;
    if WikidataTag(tags) == value {
      WithWikidataSame(tags, value);
      assert g.entities[id].(tags := tags) == g.entities[id];
    }
    forall x | x in g.entities && x in front + [id]
      ensures after.entities[x] == g.entities[x].(tags := WithWikidata(g.entities[x].tags, value))
    {
      if x != id {
        assert x in front;
      }
    }
  }

  /** After the overwrite every listed entity carries the value as its wikidata
      tag, with its other tags as they were, and every other entity is as it was. */
  lemma {:induction false} WikidataOverwriteEffect(g: Graph, ids: seq<Id>, value: Option<string>)
    requires AllPresent(g, ids)
    ensures forall i :: 0 <= i < |TagChanges(g, ids, value)| ==> TagChanges(g, ids, value)[i].id in g.entities
    ensures Overwritten(g, ApplyChanges(g, TagChanges(g, ids, value)), ids, value)
  {
    TagChangesPresent(g, ids, value);
    var cs := TagChanges(g, ids, value);
    if |ids| > 0 {
      var front := ids[..|ids| - 1];
      assert forall i :: 0 <= i < |front| ==> front[i] == ids[i];
      WikidataOverwriteEffect(g, front, value);
      var id := ids[|ids| - 1];
      var tags := g.entities[id].tags;
      var csf := TagChanges(g, front, value);
      var before := ApplyChanges(g, csf);
      if WikidataTag(tags) != value {
        assert cs == csf + [TagChange(id, WithWikidata(tags, value))];
        assert cs[..|cs| - 1] == csf;
      } else {
        assert cs == csf;
      }
      OverwrittenStep(g, before, ApplyChanges(g, cs), front, id, value);
      assert front + [id] == ids;
    }
  }

  /** `actionUpdateWikidataTags(graph)`: each action applied to the graph the
      last one returned. */
  method UpdateWikidataTags(g: Graph, cs: seq<TagChange>) returns (graph: Graph)
    requires forall i :: 0 <= i < |cs| ==> cs[i].id in g.entities
    ensures graph == ApplyChanges(g, cs)
  {
    graph := g;
    var i := 0;
    while i < |cs|
      invariant 0 <= i <= |cs|
      invariant graph == ApplyChanges(g, cs[..i])
    {
      assert cs[..i + 1][..i] == cs[..i];
      graph := ChangeTags(graph, cs[i]);
      i := i + 1;
    }
    assert cs[..i] == cs;
  }

  // ---------------------------------------------------------------------------
  // The field

  /** One `uiFieldWikipedia(field, context)`: the two inputs, the link target,
      the entities being edited, the last tags and the site matrix once loaded. */
  class WikipediaField {
    const key: string
    var data: seq<Site>
    var langInput: string
    var titleInput: string
    var wikiURL: string
    var entityIDs: seq<Id>
    var tags: Option<Tags>

    constructor(fieldKey: string)
      ensures key == fieldKey && data == [] && langInput == "" && titleInput == "" && wikiURL == ""
      ensures entityIDs == [] && tags.None?
    {
      key := fieldKey;
      data := [];
      langInput := "";
      titleInput := "";
      wikiURL := "";
      entityIDs := [];
      tags := None;
    }

    /** `tags[field.key]` when that is a string, else ''. */
    function FieldValue(t: Tags): string
      reads this
    {
      if key in t then t[key] else ""
    }

    /** `updateForTags(tags)`. */
    method UpdateForTags(t: Tags, encode: string -> Option<string>)
      modifies this
      ensures var v := ViewOf(data, FieldValue(t), encode);
        && titleInput == v.titleInput && wikiURL == v.wikiURL
        && langInput == (if v.langInput.Some? then v.langInput.value else old(langInput))
      ensures data == old(data) && entityIDs == old(entityIDs) && tags == old(tags)
    {
      var value := FieldValue(t);
      var m := MatchTag(value);
      var l := if m.Some? then FindCode(data, m.value.lang) else None;
      var anchor := if m.Some? then m.value.anchor else None;
      if l.Some? {
        langInput := l.value.localName;
        titleInput := m.value.title + AnchorSuffix(anchor);
        if anchor.Some? {
          anchor := Some(EncodeAnchor(anchor.value, encode));
        }
        wikiURL := "https://" + m.value.lang + VIEW_PREFIX + Replace(m.value.title, ' ', '_') + AnchorSuffix(anchor);
      } else {
        titleInput := value;
        if value != "" {
          langInput := "";
          wikiURL := SEARCH_URL + value;
        } else {
          wikiURL := "";
        }
      }
    }

    /** `wiki.tags(tags)`. */
    method SetTags(t: Tags, encode: string -> Option<string>)
      modifies this
      ensures tags == Some(t) && data == old(data) && entityIDs == old(entityIDs)
      ensures var v := ViewOf(data, FieldValue(t), encode);
        titleInput == v.titleInput && wikiURL == v.wikiURL &&
        langInput == (if v.langInput.Some? then v.langInput.value else old(langInput))
    {
      tags := Some(t);
      UpdateForTags(t, encode);
    }

    /** The site matrix arrives: it is stored and the inputs are refreshed from
        the last tags, if any. */
    method SetData(d: seq<Site>, encode: string -> Option<string>)
      modifies this
      ensures data == d && tags == old(tags) && entityIDs == old(entityIDs)
      ensures old(tags).None? ==> langInput == old(langInput) && titleInput == old(titleInput) && wikiURL == old(wikiURL)
      ensures old(tags).Some? ==> var v := ViewOf(d, FieldValue(old(tags).value), encode);
        titleInput == v.titleInput && wikiURL == v.wikiURL &&
        langInput == (if v.langInput.Some? then v.langInput.value else old(langInput))
    {
      data := d;
      if tags.Some? {
        UpdateForTags(tags.value, encode);
      }
    }

    /** What `change(skipWikidata)` leaves when it starts from the inputs
        `lang0` and `title0`: a pasted article URL of a known site is turned
        into its title and the language input is set to that site, unless
        decoding throws, which stops it; otherwise the wikipedia tag is
        dispatched and, unless skipped, the wikidata lookup for the language
        code and the title is started. */
    predicate ChangedFrom(lang0: string, title0: string, skipWikidata: bool, decode: string -> Option<string>,
                          locale: string, maxChars: nat, outcome: ChangeOutcome)
      reads this
    {
      var m := MatchUrl(title0);
      var l := if m.Some? then FindCode(data, m.value.lang) else None;
      && (outcome.Threw? <==> l.Some? && NormalizedTitle(m.value, decode).None?)
      && (l.None? ==> langInput == lang0 && titleInput == title0)
      && (l.Some? && NormalizedTitle(m.value, decode).None? ==> langInput == lang0 && titleInput == title0)
      && (l.Some? && NormalizedTitle(m.value, decode).Some? ==>
            langInput == l.value.localName && titleInput == NormalizedTitle(m.value, decode).value)
      && (outcome.Dispatched? ==>
            var code := Language(data, langInput, locale).code;
            && outcome.wikipedia == SyncTag(code, titleInput, maxChars)
            && (outcome.query.Some? <==> !skipWikidata && titleInput != "" && code != "")
            && (outcome.query.Some? ==> outcome.query.value == WikidataQuery(code, titleInput)))
    }

    /** `change(skipWikidata)`. */
    method Change(skipWikidata: bool, decode: string -> Option<string>, locale: string, maxChars: nat)
      returns (outcome: ChangeOutcome)
      modifies this
      ensures data == old(data) && entityIDs == old(entityIDs) && tags == old(tags) && wikiURL == old(wikiURL)
      ensures ChangedFrom(old(langInput), old(titleInput), skipWikidata, decode, locale, maxChars, outcome)
    {
      var value := titleInput;
      var m := MatchUrl(value);
      var l := if m.Some? then FindCode(data, m.value.lang) else None;
      if l.Some? {
        var normalized := NormalizedTitle(m.value, decode);
        if normalized.None? {
          return Threw;
        }
        value := normalized.value;
        langInput := l.value.localName;
        titleInput := value;
      }
      var code := Language(data, langInput, locale).code;
      var wikipedia := SyncTag(code, value, maxChars);
      if skipWikidata || value == "" || code == "" {
        return Dispatched(wikipedia, None);
      }
      return Dispatched(wikipedia, Some(WikidataQuery(code, value)));
    }

    /** `changeLang()`: the language input is normalised to the local name of
        the site it names, then `change(true)` runs from there. */
    method ChangeLang(decode: string -> Option<string>, locale: string, maxChars: nat)
      returns (outcome: ChangeOutcome)
      modifies this
      ensures data == old(data) && entityIDs == old(entityIDs) && tags == old(tags) && wikiURL == old(wikiURL)
      ensures ChangedFrom(Language(data, old(langInput), locale).localName, old(titleInput), true,
                          decode, locale, maxChars, outcome)
      ensures outcome.Dispatched? ==> outcome.query.None?
    {
      langInput := Language(data, langInput, locale).localName;
      outcome := Change(true, decode, locale, maxChars);
    }

    /** `blur()`: `change(true)`. */
    method Blur(decode: string -> Option<string>, locale: string, maxChars: nat)
      returns (outcome: ChangeOutcome)
      modifies this
      ensures data == old(data) && entityIDs == old(entityIDs) && tags == old(tags) && wikiURL == old(wikiURL)
      ensures ChangedFrom(old(langInput), old(titleInput), true, decode, locale, maxChars, outcome)
      ensures outcome.Dispatched? ==> outcome.query.None?
    {
      outcome := Change(true, decode, locale, maxChars);
    }

    /** `wiki.entityIDs(val)`. */
    method SetEntityIDs(ids: seq<Id>)
      modifies this
      ensures entityIDs == ids
      ensures data == old(data) && langInput == old(langInput) && titleInput == old(titleInput)
      ensures wikiURL == old(wikiURL) && tags == old(tags)
    {
      entityIDs := ids;
    }
  }
}
