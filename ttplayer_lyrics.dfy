/** The TTPlayer lyrics downloader (knmusicttplayerlyrics.cpp): the first
    round asks both mirror hosts for the records matching artist and title,
    the second round fetches each record found, with its authentication
    code, and saves the replies that carry lyrics. What the downloader asks
    of its base class (set the number of replies to wait for, fetch a URL,
    save lyrics, complete the request) is modelled as a list of actions. */
module TtplayerLyrics {
  import opened Bytes
  import opened Hex
  import opened Decimal
  import opened TtplayerCode

  const CncHost: string := "http://ttlrccnc.qianqian.com"
  const CtHost: string := "http://ttlrcct.qianqian.com"
  const SearchPath: string := "/dll/lyricsvr.dll?sh?Artist="
  const DownloadPath: string := "/dll/lyricsvr.dll?dl?Id="

  /** The attributes of one `lrc` element of a discovery reply. */
  datatype LrcElement = LrcElement(title: string, artist: string, id: string)

  /** Library code the downloader calls, taken as given: keyword
      normalisation (processKeywords), the UTF-16LE codec (its output
      starts with the byte order mark), QString::toUtf8, and the XML
      parsing that lists a reply's `lrc` elements. */
  datatype Foreign = Foreign(processKeywords: string -> string,
                             utf16LE: string -> seq<Byte>,
                             utf8: string -> seq<Byte>,
                             lrcElements: seq<Byte> -> seq<LrcElement>)

  /** One record found in the first round (the QMap with keys title,
      artist, id and host). */
  datatype LyricsInfo = LyricsInfo(title: string, artist: string, id: string, host: string)

  /** The user data attached to a request and returned with its reply: the
      host for a discovery request, the record for a download. */
  datatype UserData = HostUrl(url: string) | Info(info: LyricsInfo)

  /** One reply of the round: its body and the user data of its request. */
  datatype ReplyData = ReplyData(result: seq<Byte>, user: UserData)

  /** A call into the downloader base class. */
  datatype Action =
    | SetReplyCount(count: nat)
    | Get(url: string, user: UserData)
    | SaveLyrics(title: string, artist: string, content: seq<Byte>)
    | CompleteRequest

  /** QVariant::toString of the user data: the host, or empty text for a
      record. */
  function HostOf(user: UserData): string
  {
    if user.HostUrl? then user.url else ""
  }

  /** QVariant::value<QMap>() of the user data: the record, or an empty map
      (whose lookups give empty text) for a host. */
  function InfoOf(user: UserData): LyricsInfo
  {
    if user.Info? then user.info else LyricsInfo("", "", "", "")
  }

  // ---------------------------------------------------------------------
  // First round

  /** generateInitialUrl (lines 156-164): the discovery URL on a host, with
      the keyword-processed artist and title in hexadecimal UTF-16LE. */
  function GenerateInitialUrl(f: Foreign, artist: string, title: string, host: string): (url: string)
  {
    host + SearchPath + Utf16LEHexText(f.utf16LE(f.processKeywords(artist)))
      + "&Title=" + Utf16LEHexText(f.utf16LE(f.processKeywords(title))) + "&Flags=0"
  }

  /** The two query values of a discovery URL consist of hexadecimal
      digits only (so neither can contain '&'), and read back as the
      codec's bytes of the processed artist and title without the order
      mark. */
  lemma InitialUrlParameters(f: Foreign, artist: string, title: string, host: string)
    requires |f.utf16LE(f.processKeywords(artist))| >= 2
    requires |f.utf16LE(f.processKeywords(title))| >= 2
    ensures var a := Utf16LEHexText(f.utf16LE(f.processKeywords(artist)));
            var t := Utf16LEHexText(f.utf16LE(f.processKeywords(title)));
            && GenerateInitialUrl(f, artist, title, host)
               == host + SearchPath + a + "&Title=" + t + "&Flags=0"
            && IsUpperHex(a) && IsUpperHex(t)
            && DecodePairs(a) == f.utf16LE(f.processKeywords(artist))[2..]
            && DecodePairs(t) == f.utf16LE(f.processKeywords(title))[2..]
  {
    Utf16LEHexDecodes(f.utf16LE(f.processKeywords(artist)));
    Utf16LEHexDecodes(f.utf16LE(f.processKeywords(title)));
  }

  /** initialStep (lines 37-49): wait for two replies, one discovery
      request to each mirror host, each tagged with its host. */
  function InitialStep(f: Foreign, artist: string, title: string): (actions: seq<Action>)
  {
    [SetReplyCount(2),
     Get(GenerateInitialUrl(f, artist, title, CncHost), HostUrl(CncHost)),
     Get(GenerateInitialUrl(f, artist, title, CtHost), HostUrl(CtHost))]
  }

  /** The records of one discovery reply, in element order, each with the
      reply's host. */
  function InfosOf(elements: seq<LrcElement>, host: string): seq<LyricsInfo>
  {
    seq(|elements|, i requires 0 <= i < |elements| =>
      LyricsInfo(elements[i].title, elements[i].artist, elements[i].id, host))
  }

  /** The records of all discovery replies: reply by reply, and within a
      reply in element order. */
  function Candidates(f: Foreign, replies: seq<ReplyData>): (infos: seq<LyricsInfo>)
  {
    if replies == [] then []
    else
      var last := replies[|replies| - 1];
      Candidates(f, replies[..|replies| - 1]) + InfosOf(f.lrcElements(last.result), HostOf(last.user))
  }

  /** The two replies of the first round give the first reply's records
      and then the second's. */
  lemma CandidatesOfTwo(f: Foreign, first: ReplyData, second: ReplyData)
    ensures Candidates(f, [first, second])
            == InfosOf(f.lrcElements(first.result), HostOf(first.user))
               + InfosOf(f.lrcElements(second.result), HostOf(second.user))
    ensures |Candidates(f, [first, second])|
            == |f.lrcElements(first.result)| + |f.lrcElements(second.result)|
  {
    assert [first, second][..1] == [first];
    assert [first][..0] == [];
    assert Candidates(f, [first]) == InfosOf(f.lrcElements(first.result), HostOf(first.user));
  }

  /** The download URL of a record: host, path, id and generateCode. */
  function DownloadUrl(f: Foreign, info: LyricsInfo): (url: string)
  {
    info.host + DownloadPath + info.id + "&Code=" + CodeText(f.utf8(info.artist + info.title), info.id)
  }

  /** The code in a download URL is the unsigned decimal of the token
      computed from the record's artist, title and id. */
  lemma DownloadUrlCode(f: Foreign, info: LyricsInfo)
    ensures var code := CodeText(f.utf8(info.artist + info.title), info.id);
            && DownloadUrl(f, info) == info.host + DownloadPath + info.id + "&Code=" + code
            && IsDigits(code)
            && ToLongLong(code) == Token(f.utf8(info.artist + info.title), ToBv32(ToLongLong(info.id)))
  {
    CodeIsUnsignedDecimal(f.utf8(info.artist + info.title), info.id);
  }

  /** DownloadUrl for the given library code, as a function of the record. */
  function UrlOf(f: Foreign): LyricsInfo -> string
  {
    info => DownloadUrl(f, info)
  }

  /** The download request for a record, tagged with the record. */
  function FetchOf(url: LyricsInfo -> string, info: LyricsInfo): (a: Action)
  {
    Get(url(info), Info(info))
  }

  /** One download request per record, in order. */
  function Fetches(url: LyricsInfo -> string, infos: seq<LyricsInfo>): (actions: seq<Action>)
  {
    if infos == [] then [] else Fetches(url, infos[..|infos| - 1]) + [FetchOf(url, infos[|infos| - 1])]
  }

  /** Fetches issues exactly the requests for the records, i-th for i-th. */
  lemma {:induction false} FetchesAreGets(url: LyricsInfo -> string, infos: seq<LyricsInfo>)
    ensures |Fetches(url, infos)| == |infos|
    ensures forall i :: 0 <= i < |infos| ==> Fetches(url, infos)[i] == FetchOf(url, infos[i])
  {
    if infos != [] {
      var init := infos[..|infos| - 1];
      FetchesAreGets(url, init);
      var fetches := Fetches(url, infos);
      assert fetches == Fetches(url, init) + [FetchOf(url, infos[|infos| - 1])];
      forall i | 0 <= i < |infos|
        ensures fetches[i] == FetchOf(url, infos[i])
      {
        if i < |init| {
          assert infos[i] == init[i];
          assert fetches[i] == Fetches(url, init)[i];
        }
      }
    }
  }

  /** The actions of the first round of processStep (lines 60-124). */
  function Step1Actions(f: Foreign, replies: seq<ReplyData>): (actions: seq<Action>)
  {
    if |replies| != 2 then [CompleteRequest]
    else
      var infos := Candidates(f, replies);
      if infos == [] then [CompleteRequest] else [SetReplyCount(|infos|)] + Fetches(UrlOf(f), infos)
  }

  // ---------------------------------------------------------------------
  // Second round

  /** "errmsg" in ASCII. */
  const ErrMsg: seq<Byte> := [0x65, 0x72, 0x72, 0x6D, 0x73, 0x67]

  /** The bytes of needle occur in hay at position i. */
  predicate OccursAt(hay: seq<Byte>, needle: seq<Byte>, i: int)
  {
    0 <= i && i + |needle| <= |hay| && hay[i..i + |needle|] == needle
  }

  /** QByteArray::contains. */
  predicate Contains(hay: seq<Byte>, needle: seq<Byte>)
  {
    exists i :: 0 <= i <= |hay| - |needle| && OccursAt(hay, needle, i)
  }

  /** A second-round reply carries lyrics: it is not empty and has no
      "errmsg" in it. */
  predicate Accepted(reply: ReplyData)
  {
    |reply.result| != 0 && !Contains(reply.result, ErrMsg)
  }

  /** The save of an accepted reply, under its record's title and artist. */
  function SaveOf(reply: ReplyData): Action
  {
    SaveLyrics(InfoOf(reply.user).title, InfoOf(reply.user).artist, reply.result)
  }

  /** The saves of the accepted replies, in reply order. */
  function Saves(replies: seq<ReplyData>): (actions: seq<Action>)
  {
    if replies == [] then []
    else
      var last := replies[|replies| - 1];
      Saves(replies[..|replies| - 1]) + (if Accepted(last) then [SaveOf(last)] else [])
  }

  /** Saving the replies of two batches saves the first batch's, then the
      second's. */
  lemma {:induction false} SavesConcat(xs: seq<ReplyData>, ys: seq<ReplyData>)
    ensures Saves(xs + ys) == Saves(xs) + Saves(ys)
    decreases |ys|
  {
    if ys == [] {
      assert xs + ys == xs;
    } else {
      assert (xs + ys)[..|xs + ys| - 1] == xs + ys[..|ys| - 1];
      SavesConcat(xs, ys[..|ys| - 1]);
    }
  }

  /** Every action of Saves is the save of an accepted reply. */
  lemma {:induction false} SavesOnlyAccepted(replies: seq<ReplyData>, a: Action)
    requires a in Saves(replies)
    ensures a.SaveLyrics?
    ensures exists k :: 0 <= k < |replies| && Accepted(replies[k]) && SaveOf(replies[k]) == a
  {
    var init := replies[..|replies| - 1];
    var last := replies[|replies| - 1];
    if a in Saves(init) {
      SavesOnlyAccepted(init, a);
      var k :| 0 <= k < |init| && Accepted(init[k]) && SaveOf(init[k]) == a;
      assert replies[k] == init[k];
    } else {
      assert Accepted(last) && a == SaveOf(last);
    }
  }

  /** Every accepted reply is saved. */
  lemma {:induction false} AcceptedAreSaved(replies: seq<ReplyData>, k: nat)
    requires k < |replies| && Accepted(replies[k])
    ensures SaveOf(replies[k]) in Saves(replies)
  {
    var init := replies[..|replies| - 1];
    if k < |init| {
      assert init[k] == replies[k];
      AcceptedAreSaved(init, k);
    }
  }

  /** Nothing is saved exactly when no reply is accepted. */
  lemma {:induction false} NothingSavedIff(replies: seq<ReplyData>)
    ensures Saves(replies) == [] <==> forall k :: 0 <= k < |replies| ==> !Accepted(replies[k])
  {
    if replies != [] {
      var init := replies[..|replies| - 1];
      NothingSavedIff(init);
      if forall k :: 0 <= k < |replies| ==> !Accepted(replies[k]) {
        assert forall k :: 0 <= k < |init| ==> init[k] == replies[k];
      }
    }
  }

  /** The actions of the second round of processStep (lines 125-149). */
  function Step2Actions(replies: seq<ReplyData>): (actions: seq<Action>)
  {
    Saves(replies) + [CompleteRequest]
  }

  /** The number of CompleteRequest actions in a list. */
  function Completions(actions: seq<Action>): (n: nat)
    ensures n <= |actions|
  {
    if actions == [] then 0
    else Completions(actions[..|actions| - 1]) + (if actions[|actions| - 1] == CompleteRequest then 1 else 0)
  }

  lemma {:induction false} CompletionsConcat(xs: seq<Action>, ys: seq<Action>)
    ensures Completions(xs + ys) == Completions(xs) + Completions(ys)
    decreases |ys|
  {
    if ys == [] {
      assert xs + ys == xs;
    } else {
      assert (xs + ys)[..|xs + ys| - 1] == xs + ys[..|ys| - 1];
      CompletionsConcat(xs, ys[..|ys| - 1]);
    }
  }

  lemma {:induction false} SavesNeverComplete(replies: seq<ReplyData>)
    ensures Completions(Saves(replies)) == 0
  {
    if replies != [] {
      var last := replies[|replies| - 1];
      SavesNeverComplete(replies[..|replies| - 1]);
      CompletionsConcat(Saves(replies[..|replies| - 1]),
                        if Accepted(last) then [SaveOf(last)] else []);
      assert Completions([SaveOf(last)]) == 0 by {
        assert [SaveOf(last)][..0] == [];
      }
    }
  }

  /** The second round completes the request exactly once, as its last
      action, whatever was saved. */
  lemma Step2CompletesOnce(replies: seq<ReplyData>)
    ensures var actions := Step2Actions(replies);
            Completions(actions) == 1 && actions[|actions| - 1] == CompleteRequest
  {
    SavesNeverComplete(replies);
    CompletionsConcat(Saves(replies), [CompleteRequest]);
    assert [CompleteRequest][..0] == [];
  }

  /** When every reply is empty or an error, the second round only
      completes the request, and conversely. */
  lemma Step2OnlyCompletesIff(replies: seq<ReplyData>)
    ensures Step2Actions(replies) == [CompleteRequest]
            <==> forall k :: 0 <= k < |replies| ==> !Accepted(replies[k])
  {
    NothingSavedIff(replies);
    if Step2Actions(replies) == [CompleteRequest] {
      assert |Saves(replies)| == 0;
    }
  }

  // ---------------------------------------------------------------------
  // processStep

  /** The actions of processStep for a round: nothing for a round other
      than the two it knows. */
  function StepActions(f: Foreign, currentStep: int, replies: seq<ReplyData>): (actions: seq<Action>)
  {
    if currentStep == 1 then Step1Actions(f, replies)
    else if currentStep == 2 then Step2Actions(replies)
    else []
  }

  /** The number of Get actions in a list. */
  function GetCount(actions: seq<Action>): (n: nat)
    ensures n <= |actions|
  {
    if actions == [] then 0
    else GetCount(actions[..|actions| - 1]) + (if actions[|actions| - 1].Get? then 1 else 0)
  }

  lemma {:induction false} GetCountOfFetches(url: LyricsInfo -> string, infos: seq<LyricsInfo>)
    ensures GetCount(Fetches(url, infos)) == |infos|
  {
    if infos != [] {
      var init := infos[..|infos| - 1];
      GetCountOfFetches(url, init);
      var actions := Fetches(url, infos);
      assert actions[..|actions| - 1] == Fetches(url, init);
    }
  }

  lemma {:induction false} GetCountOfPrefixed(a: Action, rest: seq<Action>)
    requires !a.Get?
    ensures GetCount([a] + rest) == GetCount(rest)
    decreases |rest|
  {
    if rest != [] {
      assert ([a] + rest)[..|[a] + rest| - 1] == [a] + rest[..|rest| - 1];
      GetCountOfPrefixed(a, rest[..|rest| - 1]);
    } else {
      assert [a] + rest == [a];
      assert [a][..0] == [];
    }
  }

  /** A round that waits for replies announces exactly as many as it
      requests: its first action sets the count to its number of Gets. */
  predicate CountsItsRequests(actions: seq<Action>)
  {
    |actions| > 0 && actions[0] == SetReplyCount(GetCount(actions))
  }

  lemma InitialStepCountsItsRequests(f: Foreign, artist: string, title: string)
    ensures CountsItsRequests(InitialStep(f, artist, title))
  {
    var actions := InitialStep(f, artist, title);
    assert actions[..1][..0] == [];
    assert GetCount(actions[..1]) == 0;
    assert actions[..2][..1] == actions[..1];
    assert GetCount(actions[..2]) == 1;
    assert actions[..3][..2] == actions[..2];
  }

  /** The first round gives up, with nothing but CompleteRequest, exactly
      when there are not two replies or they hold no record; exactly then
      it requests nothing. */
  lemma Step1GivesUpIff(f: Foreign, replies: seq<ReplyData>)
    ensures Step1Actions(f, replies) == [CompleteRequest]
            <==> |replies| != 2 || Candidates(f, replies) == []
    ensures GetCount(Step1Actions(f, replies)) == 0
            <==> |replies| != 2 || Candidates(f, replies) == []
  {
    if |replies| == 2 && Candidates(f, replies) != [] {
      Step1Requests(f, replies);
    } else {
      assert [CompleteRequest][..0] == [];
    }
  }

  /** Announcing the number of records and then requesting each counts
      its requests, never completes, and requests the i-th record i-th. */
  lemma AnnouncedFetches(url: LyricsInfo -> string, infos: seq<LyricsInfo>)
    ensures var actions := [SetReplyCount(|infos|)] + Fetches(url, infos);
            && CountsItsRequests(actions)
            && Completions(actions) == 0
            && |actions| == |infos| + 1
            && forall i :: 0 <= i < |infos| ==>
                 actions[i + 1] == FetchOf(url, infos[i])
  {
    var fetches := Fetches(url, infos);
    var actions := [SetReplyCount(|infos|)] + fetches;
    FetchesAreGets(url, infos);
    assert GetCount(actions) == |infos| by {
      GetCountOfFetches(url, infos);
      GetCountOfPrefixed(SetReplyCount(|infos|), fetches);
    }
    assert Completions(actions) == 0 by {
      FetchesNeverComplete(url, infos);
      CompletionsConcat([SetReplyCount(|infos|)], fetches);
      assert [SetReplyCount(|infos|)][..0] == [];
    }
    forall i | 0 <= i < |infos|
      ensures actions[i + 1] == FetchOf(url, infos[i])
    {
      assert actions[i + 1] == fetches[i];
    }
  }

  /** Otherwise the first round waits for one reply per record, never
      completes, and requests each record in reply, then element, order. */
  lemma Step1Requests(f: Foreign, replies: seq<ReplyData>)
    requires |replies| == 2 && Candidates(f, replies) != []
    ensures Step1Actions(f, replies)
            == [SetReplyCount(|Candidates(f, replies)|)] + Fetches(UrlOf(f), Candidates(f, replies))
    ensures CountsItsRequests(Step1Actions(f, replies))
    ensures Completions(Step1Actions(f, replies)) == 0
  {
    AnnouncedFetches(UrlOf(f), Candidates(f, replies));
  }

  lemma FetchesNeverComplete(url: LyricsInfo -> string, infos: seq<LyricsInfo>)
    ensures Completions(Fetches(url, infos)) == 0
  {
    FetchesAreGets(url, infos);
    GetsNeverComplete(Fetches(url, infos));
  }

  lemma {:induction false} GetsNeverComplete(actions: seq<Action>)
    requires forall i :: 0 <= i < |actions| ==> actions[i].Get?
    ensures Completions(actions) == 0
  {
    if actions != [] {
      GetsNeverComplete(actions[..|actions| - 1]);
    }
  }

  /** Lines 69-102: the records of the discovery replies, collected reply
      by reply and element by element. */
  method CollectInfos(f: Foreign, replyCaches: seq<ReplyData>) returns (lyricsInfoList: seq<LyricsInfo>)
    ensures lyricsInfoList == Candidates(f, replyCaches)
  {
    lyricsInfoList := [];
    for k := 0 to |replyCaches|
      invariant lyricsInfoList == Candidates(f, replyCaches[..k])
    {
      var responseData := replyCaches[k].result;
      var hostUrl := HostOf(replyCaches[k].user);
      var lyrics := f.lrcElements(responseData);
      assert replyCaches[..k + 1][..k] == replyCaches[..k];
      if |lyrics| == 0 {
        continue;
      }
      for i := 0 to |lyrics|
        invariant lyricsInfoList == Candidates(f, replyCaches[..k]) + InfosOf(lyrics[..i], hostUrl)
      {
        var current := lyrics[i];
        lyricsInfoList := lyricsInfoList + [LyricsInfo(current.title, current.artist, current.id, hostUrl)];
        assert InfosOf(lyrics[..i + 1], hostUrl) == InfosOf(lyrics[..i], hostUrl)
               + [LyricsInfo(current.title, current.artist, current.id, hostUrl)];
      }
      assert lyrics[..|lyrics|] == lyrics;
    }
    assert replyCaches[..|replyCaches|] == replyCaches;
  }

  /** Lines 113-121: the download request of one record, with its code. */
  method Fetch(f: Foreign, info: LyricsInfo) returns (action: Action)
    ensures action == Get(DownloadUrl(f, info), Info(info))
  {
    var code := GenerateCode(f.utf8(info.artist + info.title), info.id);
    action := Get(info.host + DownloadPath + info.id + "&Code=" + code, Info(info));
  }

  /** Lines 111-122: one download request per record, in order. */
  method FetchAll(f: Foreign, lyricsInfoList: seq<LyricsInfo>) returns (actions: seq<Action>)
    ensures actions == Fetches(UrlOf(f), lyricsInfoList)
  {
    actions := [];
    for k := 0 to |lyricsInfoList|
      invariant actions == Fetches(UrlOf(f), lyricsInfoList[..k])
    {
      var info := lyricsInfoList[k];
      var action := Fetch(f, info);
      assert action == FetchOf(UrlOf(f), info);
      actions := actions + [action];
      assert lyricsInfoList[..k + 1][..k] == lyricsInfoList[..k];
    }
    assert lyricsInfoList[..|lyricsInfoList|] == lyricsInfoList;
  }

  /** Lines 128-145: the saves of the replies that carry lyrics. */
  method SaveAll(replyCaches: seq<ReplyData>) returns (actions: seq<Action>)
    ensures actions == Saves(replyCaches)
  {
    actions := [];
    for k := 0 to |replyCaches|
      invariant actions == Saves(replyCaches[..k])
    {
      var reply := replyCaches[k];
      assert replyCaches[..k + 1][..k] == replyCaches[..k];
      if |reply.result| == 0 || Contains(reply.result, ErrMsg) {
        continue;
      }
      var lyricsInfo := InfoOf(reply.user);
      actions := actions + [SaveLyrics(lyricsInfo.title, lyricsInfo.artist, reply.result)];
    }
    assert replyCaches[..|replyCaches|] == replyCaches;
  }

  /** processStep (lines 51-154) on the replies of the round that just
      finished. */
  method ProcessStep(f: Foreign, currentStep: int, replyCaches: seq<ReplyData>)
    returns (actions: seq<Action>)
    ensures actions == StepActions(f, currentStep, replyCaches)
  {
    actions := [];
    if currentStep == 1 {
      if |replyCaches| != 2 {
        actions := [CompleteRequest];
        return;
      }
      var lyricsInfoList := CollectInfos(f, replyCaches);
      if |lyricsInfoList| == 0 {
        actions := [CompleteRequest];
        return;
      }
      var fetches := FetchAll(f, lyricsInfoList);
      actions := [SetReplyCount(|lyricsInfoList|)] + fetches;
    } else if currentStep == 2 {
      actions := SaveAll(replyCaches);
      actions := actions + [CompleteRequest];
    }
  }
}
