/** The form-service client: turning a fetched page into flat records, loading and saving the
    session cookie text, and building the page-filter request. */
module QFlow {
  import opened Wrappers
  import opened GoStrings
  import opened QFlowTypes

  /** A flat record: question title to answer text. */
  type Record = map<string, string>

  /** The client's identifiers. Its HTTP client and cookie jar are not part of this model. */
  datatype Client = Client(appId: string, viewId: string)

  const UrlKey: string := "URL"

  /** Question titles holding one of these words (attachment, picture) are not synced. */
  const Blacklist: seq<string> := ["附件", "图片"]

  predicate Blacklisted(title: string) {
    exists k :: 0 <= k < |Blacklist| && Contains(title, Blacklist[k])
  }

  // ---------------------------------------------------------------------------
  // Map: one record per submission
  // ---------------------------------------------------------------------------

  /** The filter callback: scans the keywords and rejects the answer at the first one its title
      contains. */
  method KeepAnswer(answer: Answer) returns (keep: bool)
    ensures keep <==> !Blacklisted(answer.queTitle)
  {
    for k := 0 to |Blacklist|
      invariant forall j :: 0 <= j < k ==> !Contains(answer.queTitle, Blacklist[j])
    {
      if Contains(answer.queTitle, Blacklist[k]) {
        return false;
      }
    }
    return true;
  }

  /** `lo.Filter` with the callback above: the answers whose title is not blacklisted, in order. */
  function KeptAnswers(answers: seq<Answer>): seq<Answer>
  {
    if |answers| == 0 then []
    else
      var last := answers[|answers| - 1];
      assert answers == answers[..|answers| - 1] + [last];
      KeptAnswers(answers[..|answers| - 1]) + if Blacklisted(last.queTitle) then [] else [last]
  }

  /** The text an answer contributes: its first value's `value`, or "" when it has none. */
  function FirstValue(answer: Answer): string
  {
    if |answer.values| == 0 then "" else answer.values[0].value
  }

  /** `lo.SliceToMap`: each answer stores its title and first value, in order, so a later answer
      overwrites an earlier one with the same title. */
  function SliceToMap(answers: seq<Answer>): Record
  {
    if |answers| == 0 then map[]
    else
      var last := answers[|answers| - 1];
      assert answers == answers[..|answers| - 1] + [last];
      SliceToMap(answers[..|answers| - 1])[last.queTitle := FirstValue(last)]
  }

  /** The filter keeps exactly the answers whose title is not blacklisted, and adds none. */
  lemma {:induction false} KeptAnswersMembers(answers: seq<Answer>)
    ensures |KeptAnswers(answers)| <= |answers|
    ensures forall a :: a in KeptAnswers(answers) <==> a in answers && !Blacklisted(a.queTitle)
  {
    if |answers| > 0 {
      var n := |answers|;
      LastSplit(answers);
      KeptAnswersSnoc(answers[..n - 1], answers[n - 1]);
      KeptAnswersMembers(answers[..n - 1]);
    }
  }

  /** The keys of the map are exactly the titles of the answers. */
  lemma {:induction false} SliceToMapKeys(answers: seq<Answer>)
    ensures SliceToMap(answers).Keys == set a | a in answers :: a.queTitle
  {
    if |answers| > 0 {
      var n := |answers|;
      LastSplit(answers);
      SliceToMapSnoc(answers[..n - 1], answers[n - 1]);
      SliceToMapKeys(answers[..n - 1]);
    }
  }

  /** The share-view link of a submission, with its apply id in decimal. */
  function Permalink(c: Client, applyId: int): string
  {
    PermalinkPrefix(c) + FormatInt(applyId)
  }

  function PermalinkPrefix(c: Client): string
  {
    "https://qingflow.com/appView/" + c.appId + "/shareView/" + c.viewId + "?applyId="
  }

  /** The record of one submission: the kept answers, then the permalink under "URL". */
  function ItemRecord(c: Client, item: Item): (rec: Record)
    ensures UrlKey in rec && rec[UrlKey] == Permalink(c, item.applyId)
  {
    SliceToMap(KeptAnswers(item.answers))[UrlKey := Permalink(c, item.applyId)]
  }

  /** `QFlowClient.Map`: one record per submission of the page, in the page's order. */
  function MapResponse(c: Client, r: FilterResponse): (recs: seq<Record>)
    ensures |recs| == |r.data.list|
    ensures forall i :: 0 <= i < |recs| ==> recs[i] == ItemRecord(c, r.data.list[i])
  {
    seq(|r.data.list|, i requires 0 <= i < |r.data.list| => ItemRecord(c, r.data.list[i]))
  }

  /** A record's keys are "URL" and the titles of the answers that are not blacklisted. */
  lemma RecordKeys(c: Client, item: Item, k: string)
    ensures k in ItemRecord(c, item)
        <==> k == UrlKey || exists a :: a in item.answers && !Blacklisted(a.queTitle) && a.queTitle == k
  {
    var kept := KeptAnswers(item.answers);
    KeptAnswersMembers(item.answers);
    SliceToMapKeys(kept);
    if k != UrlKey && k in ItemRecord(c, item) {
      assert k in SliceToMap(kept);
      var a :| a in kept && a.queTitle == k;
      assert a in item.answers;
    }
  }

  /** Answer `j` is the last answer titled `title`. */
  predicate LastWithTitle(answers: seq<Answer>, title: string, j: int) {
    0 <= j < |answers| && answers[j].queTitle == title
    && forall j' :: j < j' < |answers| ==> answers[j'].queTitle != title
  }

  /** A kept title other than "URL" holds the first value of the last answer with that title. */
  lemma {:induction false} KeptValue(c: Client, item: Item, title: string, j: int)
    requires LastWithTitle(item.answers, title, j)
    requires !Blacklisted(title) && title != UrlKey
    ensures title in ItemRecord(c, item) && ItemRecord(c, item)[title] == FirstValue(item.answers[j])
  {
    LastKeptWins(item.answers, title, j);
  }

  lemma {:induction false} LastKeptWins(answers: seq<Answer>, title: string, j: int)
    requires LastWithTitle(answers, title, j) && !Blacklisted(title)
    ensures title in SliceToMap(KeptAnswers(answers))
    ensures SliceToMap(KeptAnswers(answers))[title] == FirstValue(answers[j])
  {
    var n := |answers|;
    var init, last := answers[..n - 1], answers[n - 1];
    var keptInit := KeptAnswers(init);
    LastSplit(answers);
    KeptAnswersSnoc(init, last);
    if j == n - 1 {
      SliceToMapSnoc(keptInit, last);
    } else {
      assert LastWithTitle(init, title, j) by {
        forall j' | j < j' < |init| ensures init[j'].queTitle != title {
          assert init[j'] == answers[j'];
        }
      }
      LastKeptWins(init, title, j);
      assert answers[j] == init[j];
      var m := SliceToMap(keptInit);
      assert title in m && m[title] == FirstValue(answers[j]);
      if !Blacklisted(last.queTitle) {
        assert last.queTitle != title;
        SliceToMapSnoc(keptInit, last);
        assert SliceToMap(KeptAnswers(answers)) == m[last.queTitle := FirstValue(last)];
      } else {
        assert KeptAnswers(answers) == keptInit + [];
        assert keptInit + [] == keptInit;
      }
    }
  }

  lemma {:induction false} SliceToMapSnoc(answers: seq<Answer>, a: Answer)
    ensures SliceToMap(answers + [a]) == SliceToMap(answers)[a.queTitle := FirstValue(a)]
  {
    assert (answers + [a])[..|answers|] == answers;
  }

  /** Two answers that show the same title and the same first value. */
  predicate SameShown(a: Answer, b: Answer) {
    a.queTitle == b.queTitle && FirstValue(a) == FirstValue(b)
  }

  /** Only the title and the first value's `value` of an answer reach the record: `dataValue`,
      and every value after the first, are ignored. */
  lemma {:induction false} OnlyShownValuesMatter(c: Client, item: Item, other: Item)
    requires item.applyId == other.applyId && |item.answers| == |other.answers|
    requires forall i :: 0 <= i < |item.answers| ==> SameShown(item.answers[i], other.answers[i])
    ensures ItemRecord(c, item) == ItemRecord(c, other)
  {
    SameShownSameMap(item.answers, other.answers);
  }

  lemma {:induction false} SameShownSameMap(xs: seq<Answer>, ys: seq<Answer>)
    requires |xs| == |ys|
    requires forall i :: 0 <= i < |xs| ==> SameShown(xs[i], ys[i])
    ensures SliceToMap(KeptAnswers(xs)) == SliceToMap(KeptAnswers(ys))
  {
    var n := |xs|;
    if n > 0 {
      var xi, yi := xs[..n - 1], ys[..n - 1];
      assert forall i :: 0 <= i < |xi| ==> SameShown(xi[i], yi[i]) by {
        assert forall i :: 0 <= i < n - 1 ==> xi[i] == xs[i] && yi[i] == ys[i];
      }
      SameShownSameMap(xi, yi);
      SnocSameShown(xi, yi, xs[n - 1], ys[n - 1]);
      LastSplit(xs);
      LastSplit(ys);
    }
  }

  lemma LastSplit<T>(xs: seq<T>)
    requires |xs| > 0
    ensures xs == xs[..|xs| - 1] + [xs[|xs| - 1]]
  {
  }

  lemma {:induction false} SnocSameShown(xi: seq<Answer>, yi: seq<Answer>, x: Answer, y: Answer)
    requires SliceToMap(KeptAnswers(xi)) == SliceToMap(KeptAnswers(yi))
    requires SameShown(x, y)
    ensures SliceToMap(KeptAnswers(xi + [x])) == SliceToMap(KeptAnswers(yi + [y]))
  {
    KeptAnswersSnoc(xi, x);
    KeptAnswersSnoc(yi, y);
    var kx, ky := KeptAnswers(xi), KeptAnswers(yi);
    if Blacklisted(x.queTitle) {
      assert KeptAnswers(xi + [x]) == kx;
      assert KeptAnswers(yi + [y]) == ky;
    } else {
      assert KeptAnswers(xi + [x]) == kx + [x];
      assert KeptAnswers(yi + [y]) == ky + [y];
      SliceToMapSnoc(kx, x);
      SliceToMapSnoc(ky, y);
      var m := SliceToMap(kx);
      assert SliceToMap(kx + [x]) == m[x.queTitle := FirstValue(x)];
      assert SliceToMap(ky + [y]) == m[x.queTitle := FirstValue(x)];
    }
  }

  lemma {:induction false} KeptAnswersSnoc(xi: seq<Answer>, x: Answer)
    ensures KeptAnswers(xi + [x]) == KeptAnswers(xi) + if Blacklisted(x.queTitle) then [] else [x]
  {
    assert (xi + [x])[..|xi|] == xi;
  }

  /** The permalink ends in the submission's apply id, which reads back from it unchanged. */
  lemma PermalinkCarriesApplyId(c: Client, applyId: int)
    ensures |PermalinkPrefix(c)| <= |Permalink(c, applyId)|
    ensures Permalink(c, applyId)[..|PermalinkPrefix(c)|] == PermalinkPrefix(c)
    ensures ParseInt(Permalink(c, applyId)[|PermalinkPrefix(c)|..]) == Some(applyId)
  {
    FormatIntRoundTrip(applyId);
    assert Permalink(c, applyId)[|PermalinkPrefix(c)|..] == FormatInt(applyId);
  }

  // ---------------------------------------------------------------------------
  // Session cookies: the text of the cookie file
  // ---------------------------------------------------------------------------

  datatype Cookie = Cookie(name: string, value: string)

  /** The loader's per-piece callback: trim, then split at the first '='; a piece without '='
      becomes a cookie with that name and an empty value. */
  function ParseCookie(piece: string): (c: Cookie)
    ensures var pair := TrimSpace(piece);
      if '=' in pair then pair == c.name + "=" + c.value && '=' !in c.name
      else c == Cookie(pair, "")
  {
    var pair := TrimSpace(piece);
    var sp := SplitN2(pair, '=');
    if |sp| != 2 then Cookie(pair, "") else Cookie(sp[0], sp[1])
  }

  /** The cookies read from the cookie file's text: one per ';'-separated piece. */
  function LoadCookies(content: string): (cs: seq<Cookie>)
    ensures |cs| == multiset(content)[';'] + 1
    ensures forall i :: 0 <= i < |cs| ==> cs[i] == ParseCookie(Split(content, ';')[i])
  {
    var pieces := Split(content, ';');
    seq(|pieces|, i requires 0 <= i < |pieces| => ParseCookie(pieces[i]))
  }

  /** What a cookie is written as: "name=value". */
  function CookieText(c: Cookie): string
  {
    c.name + "=" + c.value
  }

  /** The text `Close` writes to the cookie file: the cookies joined with ';'. */
  function SaveCookies(cs: seq<Cookie>): string
  {
    Join(seq(|cs|, i requires 0 <= i < |cs| => CookieText(cs[i])), ';')
  }

  /** A cookie that survives a save and a load. */
  predicate Storable(c: Cookie) {
    '=' !in c.name && ';' !in c.name && ';' !in c.value
    && NoLeadingSpace(c.name) && NoTrailingSpace(c.value)
  }

  lemma SeparatorPosition(a: string, b: string, sep: char)
    requires sep !in a
    ensures (a + [sep] + b)[|a|] == sep
    ensures forall i :: 0 <= i < |a| ==> (a + [sep] + b)[i] != sep
  {
  }

  lemma FirstSeparatorUnique(a: string, b: string, a': string, b': string, sep: char)
    requires a + [sep] + b == a' + [sep] + b'
    requires sep !in a && sep !in a'
    ensures a == a' && b == b'
  {
    var s := a + [sep] + b;
    SeparatorPosition(a, b, sep);
    SeparatorPosition(a', b', sep);
    assert |a| == |a'|;
    assert a == s[..|a|] == a';
    assert b == s[|a| + 1..] == b';
  }

  lemma ParseCookieText(c: Cookie)
    requires Storable(c)
    ensures ParseCookie(CookieText(c)) == c
  {
    var t := CookieText(c);
    assert t[|c.name|] == '=';
    if c.name != [] { assert t[0] == c.name[0]; }
    if c.value != [] { assert t[|t| - 1] == c.value[|c.value| - 1]; }
    TrimSpaceKeepsTrimmed(t);
    var p := ParseCookie(t);
    FirstSeparatorUnique(p.name, p.value, c.name, c.value, '=');
  }

  /** Saving cookies and loading the file again gives back the same cookies, in order. */
  lemma SaveLoadRoundTrip(cs: seq<Cookie>)
    requires |cs| > 0
    requires forall i :: 0 <= i < |cs| ==> Storable(cs[i])
    ensures LoadCookies(SaveCookies(cs)) == cs
  {
    var texts := seq(|cs|, i requires 0 <= i < |cs| => CookieText(cs[i]));
    forall i | 0 <= i < |cs| ensures ';' !in texts[i] {
      assert texts[i] == cs[i].name + "=" + cs[i].value;
    }
    SplitJoin(texts, ';');
    forall i | 0 <= i < |cs| ensures LoadCookies(SaveCookies(cs))[i] == cs[i] {
      ParseCookieText(cs[i]);
    }
  }

  /** A jar with no cookies is saved as an empty file, which loads as one cookie with an empty
      name and value. */
  lemma EmptyJarReloadsAsNamelessCookie()
    ensures SaveCookies([]) == ""
    ensures LoadCookies("") == [Cookie("", "")]
  {
    assert TrimSpace("") == "";
  }

  /** What `os.Stat` and `os.Open` / `io.ReadAll` find for the cookie file. */
  datatype CookieFile = Missing | OpenFails | ReadFails | Text(content: string)

  datatype ClientError = OpenCookieFileFailed | ReadCookieFileFailed

  /** `NewQFlowClient`: the client and the cookies seeded into its jar. */
  function NewClient(appId: string, viewId: string, file: CookieFile): (r: Result<(Client, seq<Cookie>), ClientError>)
    ensures file.Missing? ==> r == Ok((Client(appId, viewId), []))
    ensures file.OpenFails? ==> r == Err(OpenCookieFileFailed)
    ensures file.ReadFails? ==> r == Err(ReadCookieFileFailed)
    ensures file.Text? ==> r.Ok? && r.value.0 == Client(appId, viewId)
                           && r.value.1 == LoadCookies(file.content)
                           && |r.value.1| == multiset(file.content)[';'] + 1
  {
    match file
    case Missing => Ok((Client(appId, viewId), []))
    case OpenFails => Err(OpenCookieFileFailed)
    case ReadFails => Err(ReadCookieFileFailed)
    case Text(content) => Ok((Client(appId, viewId), LoadCookies(content)))
  }

  // ---------------------------------------------------------------------------
  // GetValue: the page-filter request
  // ---------------------------------------------------------------------------

  /** The filter body for one page: filter type 8, newest first by update time, no queries. */
  function FilterRequestFor(page: int, size: int): (req: FilterRequest)
    ensures req.filter.pageNum == page && req.filter.pageSize == size
    ensures req.filter.filterType == 8
    ensures req.filter.sorts == [FilterSort(3, false, 4, "")]
    ensures req.filter.queries == [] && req.filter.queryKey == None
  {
    FilterRequest(Filter(size, page, 8, [UpdateTimeSorter], [], None))
  }

  function FilterUri(viewId: string): string
  {
    "https://qingflow.com/api/view/" + viewId + "/apply/filter"
  }

  datatype Request = Request(uri: string, body: FilterRequest)

  /** What the HTTP round trip gives: no response, a body that does not decode, or a decoded one. */
  datatype HttpOutcome = NoResponse | Undecodable | Decoded(response: FilterResponse)

  datatype FetchError = WaitCancelled | SendFailed | DecodeFailed

  /** `GetValue`: wait for the page-fetch rate limiter (`waited` is false when the context ended
      first), then post the filter and decode the reply. The reply's `code` is not checked. */
  function GetValue(c: Client, page: int, size: int, waited: bool, send: Request -> HttpOutcome)
    : (r: Result<FilterResponse, FetchError>)
    ensures !waited ==> r == Err(WaitCancelled)
    ensures waited ==>
      var out := send(Request(FilterUri(c.viewId), FilterRequestFor(page, size)));
      && (r.Ok? <==> out.Decoded?)
      && (r.Ok? ==> r.value == out.response)
      && (out.NoResponse? ==> r == Err(SendFailed))
      && (out.Undecodable? ==> r == Err(DecodeFailed))
  {
    if !waited then Err(WaitCancelled)
    else
      match send(Request(FilterUri(c.viewId), FilterRequestFor(page, size)))
      case NoResponse => Err(SendFailed)
      case Undecodable => Err(DecodeFailed)
      case Decoded(resp) => Ok(resp)
  }
}
