/** The classifier's deterministic parts: the domain-table fallback used
    when the language model is unavailable, and the clean-up and reshaping
    of the model's reply. The reply itself, its `JSON.parse`, the page
    metadata fetch and the domain table's contents are inputs. */
module Ai {
  import opened Values
  import opened Text
  import opened Url

  /** `Object.entries(DOMAIN_MAP)`: (domain key, category) pairs in order. */
  type DomainTable = seq<(string, string)>

  const OtherCategory := "Other"
  const SummaryPrefix := "Bookmarked from "

  /** `a || b` on two strings. */
  function OrStr(a: string, b: string): string {
    if a != "" then a else b
  }

  /** The first entry satisfying `p`, as `Array.prototype.find` sees it. */
  function FirstWhere(table: DomainTable, p: ((string, string)) -> bool): (r: Option<nat>)
    ensures r.Some? ==> r.value < |table| && p(table[r.value])
    ensures r.Some? ==> forall j :: 0 <= j < r.value ==> !p(table[j])
    ensures r.None? ==> forall j :: 0 <= j < |table| ==> !p(table[j])
  {
    if table == [] then None
    else if p(table[0]) then Some(0)
    else match FirstWhere(table[1..], p)
      case None => None
      case Some(i) => Some(i + 1)
  }

  /** `DOMAIN_MAP[domain]`: the category stored under exactly that key. */
  function ExactCategory(domain: string, table: DomainTable): string {
    match FirstWhere(table, (e: (string, string)) => e.0 == domain)
    case None => ""
    case Some(i) => table[i].1
  }

  /** The loose match of `find`: the key is a suffix of the domain, or the
      key's first dot-label occurs in it. */
  predicate LooseMatch(domain: string, key: string) {
    EndsWith(domain, key) || Contains(domain, FirstLabel(key))
  }

  /** The category of the first loosely matching entry, "" if none. */
  function LooseCategory(domain: string, table: DomainTable): string {
    match FirstWhere(table, (e: (string, string)) => LooseMatch(domain, e.0))
    case None => ""
    case Some(i) => table[i].1
  }

  /** The `category` chain of `domainFallback`. */
  function FallbackCategory(domain: string, table: DomainTable): string {
    OrStr(ExactCategory(domain, table), OrStr(LooseCategory(domain, table), OtherCategory))
  }

  /** `domainFallback(url, meta, userTitle)`, with `meta.title` as `metaTitle`. */
  function DomainFallback(url: string, metaTitle: string, userTitle: string,
                          parseHost: HostParser, table: DomainTable): Object
  {
    FallbackFor(ExtractDomain(url, parseHost), metaTitle, userTitle, table)
  }

  /** The object `domainFallback` returns for the extracted domain. */
  function FallbackFor(domain: string, metaTitle: string, userTitle: string, table: DomainTable): Object {
    map[
      "category" := Str(FallbackCategory(domain, table)),
      "tags" := Arr([Str(FirstLabel(domain))]),
      "summary" := Str(SummaryPrefix + domain),
      "suggestedTitle" := Str(OrStr(metaTitle, OrStr(userTitle, domain))),
      "pageTitle" := Str(OrStr(metaTitle, ""))
    ]
  }

  /** `i` is the first entry whose key is exactly the domain. */
  predicate FirstExactAt(domain: string, table: DomainTable, i: int) {
    0 <= i < |table| && table[i].0 == domain && forall j :: 0 <= j < i ==> table[j].0 != domain
  }

  /** `i` is the first entry whose key loosely matches the domain. */
  predicate FirstLooseAt(domain: string, table: DomainTable, i: int) {
    0 <= i < |table| && LooseMatch(domain, table[i].0) && forall j :: 0 <= j < i ==> !LooseMatch(domain, table[j].0)
  }

  /** The category lookup tries an exact key first, then the first loosely
      matching entry in table order, then "Other"; whatever it picks is a
      non-empty string. Only the first loose match is looked at: when its
      category is empty, a later match is not tried. */
  lemma FallbackCategorySpec(domain: string, table: DomainTable)
    ensures FallbackCategory(domain, table) != ""
    ensures forall i :: (0 <= i < |table| && table[i].0 == domain && table[i].1 != "" &&
              (forall j :: 0 <= j < i ==> table[j].0 != domain)) ==> FallbackCategory(domain, table) == table[i].1
    ensures (forall i :: 0 <= i < |table| ==> table[i].0 != domain || table[i].1 == "") ==>
              forall i :: (0 <= i < |table| && LooseMatch(domain, table[i].0) && table[i].1 != "" &&
                (forall j :: 0 <= j < i ==> !LooseMatch(domain, table[j].0))) ==> FallbackCategory(domain, table) == table[i].1
    ensures (forall i :: 0 <= i < |table| ==> (table[i].0 != domain && !LooseMatch(domain, table[i].0)) || table[i].1 == "") ==>
              FallbackCategory(domain, table) == OtherCategory
    ensures (forall i :: FirstExactAt(domain, table, i) ==> table[i].1 == "") &&
            (forall i :: FirstLooseAt(domain, table, i) ==> table[i].1 == "") ==>
              FallbackCategory(domain, table) == OtherCategory
  {
    var exact := (e: (string, string)) => e.0 == domain;
    var loose := (e: (string, string)) => LooseMatch(domain, e.0);
    match FirstWhere(table, exact) {
      case None =>
      case Some(k) => assert FirstExactAt(domain, table, k);
    }
    match FirstWhere(table, loose) {
      case None =>
      case Some(k) => assert FirstLooseAt(domain, table, k);
    }
    forall i | 0 <= i < |table| && table[i].0 == domain && table[i].1 != "" &&
               (forall j :: 0 <= j < i ==> table[j].0 != domain)
      ensures FallbackCategory(domain, table) == table[i].1
    {
      ExactHit(domain, table, i);
    }
    if forall i :: 0 <= i < |table| ==> table[i].0 != domain || table[i].1 == "" {
      forall i | 0 <= i < |table| && LooseMatch(domain, table[i].0) && table[i].1 != "" &&
                 (forall j :: 0 <= j < i ==> !LooseMatch(domain, table[j].0))
        ensures FallbackCategory(domain, table) == table[i].1
      {
        LooseHit(domain, table, i);
      }
    }
  }

  lemma ExactHit(domain: string, table: DomainTable, i: int)
    requires 0 <= i < |table| && table[i].0 == domain && table[i].1 != ""
    requires forall j :: 0 <= j < i ==> table[j].0 != domain
    ensures FallbackCategory(domain, table) == table[i].1
  {
    var exact := (e: (string, string)) => e.0 == domain;
    assert exact(table[i]);
    assert FirstWhere(table, exact) == Some(i);
  }

  lemma LooseHit(domain: string, table: DomainTable, i: int)
    requires forall k :: 0 <= k < |table| ==> table[k].0 != domain || table[k].1 == ""
    requires 0 <= i < |table| && LooseMatch(domain, table[i].0) && table[i].1 != ""
    requires forall j :: 0 <= j < i ==> !LooseMatch(domain, table[j].0)
    ensures FallbackCategory(domain, table) == table[i].1
  {
    var loose := (e: (string, string)) => LooseMatch(domain, e.0);
    assert ExactCategory(domain, table) == "";
    assert loose(table[i]);
    assert FirstWhere(table, loose) == Some(i);
  }

  /** The fallback always has the same five fields: the category of the
      table lookup (never empty), exactly one tag (the domain's part before
      its first dot, which has no dot), the summary "Bookmarked from " and the
      domain, and the first non-empty of the page title, the user's title and
      the domain as its suggested title. */
  lemma DomainFallbackSpec(url: string, metaTitle: string, userTitle: string,
                           parseHost: HostParser, table: DomainTable)
    ensures var r := DomainFallback(url, metaTitle, userTitle, parseHost, table);
      var domain := ExtractDomain(url, parseHost);
      && r.Keys == {"category", "tags", "summary", "suggestedTitle", "pageTitle"}
      && r["tags"] == Arr([Str(FirstLabel(domain))])
      && r["tags"].items[0].Str? && StartsWith(domain, r["tags"].items[0].s) && '.' !in r["tags"].items[0].s
      && r["summary"] == Str(SummaryPrefix + domain)
      && StartsWith(r["summary"].s, SummaryPrefix) && EndsWith(r["summary"].s, domain)
      && r["category"] == Str(FallbackCategory(domain, table)) && r["category"].s != ""
      && (metaTitle != "" ==> r["suggestedTitle"] == Str(metaTitle) && r["pageTitle"] == Str(metaTitle))
      && (metaTitle == "" && userTitle != "" ==> r["suggestedTitle"] == Str(userTitle))
      && (metaTitle == "" && userTitle == "" ==> r["suggestedTitle"] == Str(domain))
      && (metaTitle == "" ==> r["pageTitle"] == Str(""))
  {
    FallbackForSpec(ExtractDomain(url, parseHost), metaTitle, userTitle, table);
  }

  lemma FallbackForSpec(domain: string, metaTitle: string, userTitle: string, table: DomainTable)
    ensures var r := FallbackFor(domain, metaTitle, userTitle, table);
      && r.Keys == {"category", "tags", "summary", "suggestedTitle", "pageTitle"}
      && r["tags"] == Arr([Str(FirstLabel(domain))])
      && r["tags"].items[0].Str? && StartsWith(domain, r["tags"].items[0].s) && '.' !in r["tags"].items[0].s
      && r["summary"] == Str(SummaryPrefix + domain)
      && StartsWith(r["summary"].s, SummaryPrefix) && EndsWith(r["summary"].s, domain)
      && r["category"] == Str(FallbackCategory(domain, table)) && r["category"].s != ""
      && (metaTitle != "" ==> r["suggestedTitle"] == Str(metaTitle) && r["pageTitle"] == Str(metaTitle))
      && (metaTitle == "" && userTitle != "" ==> r["suggestedTitle"] == Str(userTitle))
      && (metaTitle == "" && userTitle == "" ==> r["suggestedTitle"] == Str(domain))
      && (metaTitle == "" ==> r["pageTitle"] == Str(""))
  {
    var r := FallbackFor(domain, metaTitle, userTitle, table);
    var c := FallbackCategory(domain, table);
    assert c != "" by {
      FallbackCategorySpec(domain, table);
    }
    assert r["category"] == Str(c);
    var tag := FirstLabel(domain);
    assert r["tags"] == Arr([Str(tag)]);
    assert r["tags"].items[0] == Str(tag);
    assert StartsWith(domain, tag) && '.' !in tag;
    assert r["summary"] == Str(SummaryPrefix + domain);
    SummaryNamesDomain(domain);
    assert r["suggestedTitle"] == Str(OrStr(metaTitle, OrStr(userTitle, domain)));
    assert r["pageTitle"] == Str(OrStr(metaTitle, ""));
  }

  lemma SummaryNamesDomain(domain: string)
    ensures StartsWith(SummaryPrefix + domain, SummaryPrefix) && EndsWith(SummaryPrefix + domain, domain)
  {
    var s := SummaryPrefix + domain;
    assert s[..|SummaryPrefix|] == SummaryPrefix;
    assert s[|s| - |domain|..] == domain;
  }

  /** `tags` of the reshaped reply: the first four of an array, else none. */
  function FirstTags(v: Value): Value {
    if v.Arr? then Arr(v.items[..if |v.items| < 4 then |v.items| else 4]) else Arr([])
  }

  /** The object `categorizeWithAI` builds from the parsed reply `aiData`;
      `None` where reading a property of a `null` reply throws. */
  function Reshape(aiData: Value, metaTitle: string, userTitle: string): Option<Object> {
    if IsNullish(aiData) then None
    else Some(map[
      "category" := Or(Field(aiData, "category"), Str(OtherCategory)),
      "tags" := FirstTags(Field(aiData, "tags")),
      "summary" := Or(Field(aiData, "summary"), Str("")),
      "suggestedTitle" := Or(Field(aiData, "suggestedTitle"), Str(OrStr(metaTitle, OrStr(userTitle, "")))),
      "pageTitle" := Str(OrStr(metaTitle, ""))
    ])
  }

  /** A reshaped reply has the five fields, a truthy category ("Other" for a
      missing one), the first four of the reply's tags (all of them when
      there are fewer, none when it has no tag array), the reply's own summary or "", and a suggested title that
      falls back through the page title to the user's title. */
  lemma ReshapeSpec(aiData: Value, metaTitle: string, userTitle: string)
    ensures Reshape(aiData, metaTitle, userTitle).None? <==> aiData.Null? || aiData.Undefined?
    ensures Reshape(aiData, metaTitle, userTitle).Some? ==>
      var r := Reshape(aiData, metaTitle, userTitle).value;
      var tags := Field(aiData, "tags");
      && r.Keys == {"category", "tags", "summary", "suggestedTitle", "pageTitle"}
      && Truthy(r["category"])
      && (!Truthy(Field(aiData, "category")) ==> r["category"] == Str(OtherCategory))
      && (Truthy(Field(aiData, "category")) ==> r["category"] == Field(aiData, "category"))
      && r["tags"].Arr? && |r["tags"].items| <= 4
      && (tags.Arr? ==> r["tags"].items == tags.items[..|r["tags"].items|])
      && (tags.Arr? && |tags.items| <= 4 ==> r["tags"] == tags)
      && (tags.Arr? && |tags.items| > 4 ==> r["tags"] == Arr(tags.items[..4]))
      && (!tags.Arr? ==> r["tags"] == Arr([]))
      && (Truthy(Field(aiData, "summary")) ==> r["summary"] == Field(aiData, "summary"))
      && (!Truthy(Field(aiData, "summary")) ==> r["summary"] == Str(""))
      && (Truthy(Field(aiData, "suggestedTitle")) ==> r["suggestedTitle"] == Field(aiData, "suggestedTitle"))
      && (!Truthy(Field(aiData, "suggestedTitle")) ==>
            r["suggestedTitle"] == Str(if metaTitle != "" then metaTitle else userTitle))
      && r["pageTitle"] == Str(metaTitle)
  {
    var tags := Field(aiData, "tags");
    if tags.Arr? && |tags.items| <= 4 {
      assert tags.items[..|tags.items|] == tags.items;
    }
  }

  /** `/```\s*$/` matches at `p`: a fence followed only by white space. */
  predicate CloseFenceAt(s: string, p: nat) {
    OccursAt(s, "```", p) && AllSpace(s[p + 3..])
  }

  /** The leftmost match of the closing-fence pattern at or after `from`. */
  function CloseFenceFrom(s: string, from: nat): (r: Option<nat>)
    ensures r.Some? ==> from <= r.value && CloseFenceAt(s, r.value)
    ensures r.Some? ==> forall j: nat :: from <= j < r.value ==> !CloseFenceAt(s, j)
    ensures r.None? ==> forall j: nat :: from <= j ==> !CloseFenceAt(s, j)
    decreases |s| - from
  {
    if from + 3 > |s| then None
    else if CloseFenceAt(s, from) then Some(from)
    else CloseFenceFrom(s, from + 1)
  }

  /** The first `replace`, of the pattern `^```json\s*` ignoring case: an
      opening fence tagged "json" in any case, with the white space after it. */
  function StripOpenFence(s: string): string {
    if |s| >= 7 && s[..3] == "```" && Lower(s[3..7]) == "json" then TrimStart(s[7..]) else s
  }

  /** The second `replace`, of the pattern ````\s*$`: the leftmost fence
      followed by nothing but white space, and everything after it. */
  function StripCloseFence(s: string): string {
    match CloseFenceFrom(s, 0)
    case None => s
    case Some(p) => s[..p]
  }

  /** The `cleaned` text handed to `JSON.parse`, from the reply's content
      (`""` for a missing one). */
  function CleanReply(content: string): string {
    Trim(StripCloseFence(StripOpenFence(Trim(content))))
  }

  /** The text has no white space at either end. */
  predicate Trimmed(s: string) {
    s == [] || (!IsSpace(s[0]) && !IsSpace(s[|s| - 1]))
  }

  lemma TrimmedTrim(s: string)
    requires Trimmed(s)
    ensures Trim(s) == s
  {
  }

  /** No character of `s` is a backtick. */
  predicate NoBacktick(s: string) {
    forall k :: 0 <= k < |s| ==> s[k] != '`'
  }

  lemma NoBacktickNoFence(s: string, j: nat)
    requires NoBacktick(s)
    ensures !OccursAt(s, "```", j)
  {
    if j + 3 <= |s| {
      assert s[j..j + 3][0] == s[j];
    }
  }

  /** The opening fence and the newline after it go. */
  lemma OpenFenceStripped(body: string)
    requires body != [] && !IsSpace(body[0])
    ensures StripOpenFence(Trim("```json\n" + body + "\n```")) == (body + "\n") + "```"
  {
    FencedTrimmed(body);
    var rest := body + "\n```";
    Associative("```json\n", body, "\n```");
    OpenFenceMatches("```json\n" + body + "\n```", rest);
    TrimStartSpace('\n', rest);
    assert rest[0] == body[0];
    TrimStartStop(rest);
    Associative(body, "\n", "```");
  }

  lemma Associative(a: string, b: string, c: string)
    ensures a + b + c == a + (b + c)
  {
  }

  lemma FencedTrimmed(body: string)
    ensures Trim("```json\n" + body + "\n```") == "```json\n" + body + "\n```"
  {
    var s := "```json\n" + body + "\n```";
    assert s[0] == '`' && s[|s| - 1] == '`';
    TrimEndStop(s);
    TrimStartStop(s);
  }

  lemma OpenFenceMatches(s: string, rest: string)
    requires s == "```json\n" + rest
    ensures StripOpenFence(s) == TrimStart(['\n'] + rest)
  {
    var fence := "```json\n";
    assert s[..8] == fence;
    assert s[..3] == fence[..3] == "```";
    assert s[3..7] == fence[3..7] == "json";
    assert Lower(s[3..7]) == "json";
    assert s[7..] == ['\n'] + rest;
  }

  /** A trailing fence after text without backticks is the leftmost match. */
  lemma CloseFenceStripped(u: string)
    requires NoBacktick(u)
    ensures StripCloseFence(u + "```") == u
  {
    var t := u + "```";
    var p := |u|;
    assert t[p..p + 3] == "```";
    assert t[p + 3..] == [];
    assert CloseFenceAt(t, p);
    forall j: nat | j < p ensures !CloseFenceAt(t, j) {
      assert t[j] == u[j];
      if j + 3 <= |t| {
        assert t[j..j + 3][0] == t[j];
      }
    }
    var r := CloseFenceFrom(t, 0);
    assert r == Some(p);
    assert t[..p] == u;
  }

  /** A reply fenced as a "json" code block yields exactly its body, when the
      body is trimmed, not empty, and has no backtick. */
  lemma CleanFencedReply(body: string)
    requires body != [] && Trimmed(body) && NoBacktick(body)
    ensures CleanReply("```json\n" + body + "\n```") == body
  {
    OpenFenceStripped(body);
    NoBacktickSnoc(body, '\n');
    CleanAfterOpenFence("```json\n" + body + "\n```", body);
  }

  lemma CleanAfterOpenFence(s: string, body: string)
    requires body != [] && Trimmed(body) && NoBacktick(body + "\n")
    requires StripOpenFence(Trim(s)) == (body + "\n") + "```"
    ensures CleanReply(s) == body
  {
    CloseFenceStripped(body + "\n");
    TrimNewline(body);
  }

  lemma NoBacktickSnoc(s: string, c: char)
    requires NoBacktick(s) && c != '`'
    ensures NoBacktick(s + [c])
  {
    var u := s + [c];
    forall k | 0 <= k < |u| ensures u[k] != '`' {
      if k < |s| {
        assert u[k] == s[k];
      }
    }
  }

  lemma TrimNewline(body: string)
    requires body != [] && Trimmed(body)
    ensures Trim(body + "\n") == body
  {
    TrimEndSpace(body, '\n');
    TrimEndStop(body);
    TrimStartStop(body);
  }

  /** A reply without fences, trimmed and free of backticks, is parsed as
      it stands. */
  lemma CleanPlainReply(body: string)
    requires Trimmed(body) && NoBacktick(body)
    ensures CleanReply(body) == body
  {
    TrimmedTrim(body);
    NoOpenFence(body);
    NoCloseFence(body);
  }

  lemma NoOpenFence(s: string)
    requires NoBacktick(s)
    ensures StripOpenFence(s) == s
  {
    if |s| >= 7 {
      assert s[..3][0] == s[0];
    }
  }

  lemma NoCloseFence(s: string)
    requires NoBacktick(s)
    ensures StripCloseFence(s) == s
  {
    forall j: nat ensures !CloseFenceAt(s, j) {
      NoBacktickNoFence(s, j);
    }
    var r := CloseFenceFrom(s, 0);
    assert r.None?;
  }
}
