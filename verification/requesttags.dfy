/** The tags that requests carry and answers bring back: printed in one place and taken apart in another
    (src/tdlib/tdlibwrapper.cpp:129, 326, 408-418, 472, 1125, 1577-1587, 1699-1783, 2256-2273, 2386-2428, 2542-2594,
    2683, 2751 and
    src/tdlib/tdlibreceiver.cpp:123-134, 288-319, 1367-1374). */
module RequestTags {
  import opened Decimal
  import opened SearchFilters

  const INT_MIN := -0x8000_0000
  const INT_MAX := 0x7FFF_FFFF
  const LONG_MIN := -0x8000_0000_0000_0000
  const LONG_MAX := 0x7FFF_FFFF_FFFF_FFFF

  predicate IsInt(n: int) { INT_MIN <= n <= INT_MAX }

  predicate IsLong(n: int) { LONG_MIN <= n <= LONG_MAX }

  function ToInt(s: string): int { ToInteger(s, INT_MIN, INT_MAX) }

  function ToLong(s: string): int { ToInteger(s, LONG_MIN, LONG_MAX) }

  /** The parts of a text between its colons, empty ones included; there is always at least one. */
  function Split(s: string): (parts: seq<string>)
    ensures parts != []
  {
    if s == [] then [""]
    else
      var rest := Split(s[1..]);
      if s[0] == ':' then [""] + rest else [[s[0]] + rest[0]] + rest[1..]
  }

  function Join(parts: seq<string>): string {
    if parts == [] then ""
    else if |parts| == 1 then parts[0]
    else parts[0] + ":" + Join(parts[1..])
  }

  /** A part by its number, empty if there are not so many. */
  function Part(parts: seq<string>, k: nat): string {
    if k < |parts| then parts[k] else ""
  }

  function Rest(parts: seq<string>, k: nat): seq<string> {
    if k < |parts| then parts[k..] else []
  }

  predicate NoColon(s: string) {
    forall k :: 0 <= k < |s| ==> s[k] != ':'
  }

  lemma {:induction false} JoinSplit(s: string)
    ensures Join(Split(s)) == s
  {
    if s != [] {
      JoinSplit(s[1..]);
      var rest := Split(s[1..]);
      if s[0] == ':' {
        assert ([""] + rest)[1..] == rest;
      } else {
        assert ([[s[0]] + rest[0]] + rest[1..])[1..] == rest[1..];
      }
    }
  }

  lemma {:induction false} SplitWhole(s: string)
    requires NoColon(s)
    ensures Split(s) == [s]
  {
    if s != [] {
      SplitWhole(s[1..]);
      assert [s[0]] + s[1..] == s;
    }
  }

  lemma {:induction false} SplitFirst(first: string, rest: string)
    requires NoColon(first)
    ensures Split(first + ":" + rest) == [first] + Split(rest)
  {
    var s := first + ":" + rest;
    if first == [] {
      assert s[1..] == rest;
    } else {
      SplitFirst(first[1..], rest);
      assert s[1..] == first[1..] + ":" + rest;
      assert [first[0]] + first[1..] == first;
    }
  }

  lemma {:induction false} NumberNoColon(n: int)
    ensures NoColon(Number(n))
  {
    forall k | 0 <= k < |Number(n)| ensures Number(n)[k] != ':' {
      assert Number(n)[k] == '-' || IsDigit(Number(n)[k]);
    }
  }

  /** The requests whose answers are told apart by a tag. */
  datatype Request =
    | WithId(id: nat)
    | ChatHistory(chatId: int, extra: int)
    | Search(chatId: int, filter: int, extra: int)
    | ThreadHistory(chatId: int, messageId: int, extra: int)
    | TopicHistory(chatId: int, topicId: int, extra: int)
    | SuggestedFileName(flag: bool, path: string)
    | ExternalLinkInfo(flag: bool, link: string)
    | WebBrowserType(flag: bool, link: string)
    | LoginUrl(link: string)
    | ForumTopic(chatId: int, topicId: int)
    | SavedSound(soundId: string)
    | LoadChats(archive: bool)
    | LoadFolderChats(folderId: int)
    | Ping

  /** The values fit the types they have: 64-bit ids, and 32-bit topic ids, filters and extras. */
  predicate Typed(request: Request) {
    match request
    case WithId(id) => IsLong(id)
    case ChatHistory(chatId, extra) => IsLong(chatId) && IsInt(extra)
    case Search(chatId, filter, extra) => IsLong(chatId) && IsInt(filter) && IsInt(extra)
    case ThreadHistory(chatId, messageId, extra) => IsLong(chatId) && IsLong(messageId) && IsInt(extra)
    case TopicHistory(chatId, topicId, extra) => IsLong(chatId) && IsInt(topicId) && IsInt(extra)
    case ForumTopic(chatId, topicId) => IsLong(chatId) && IsInt(topicId)
    case LoadFolderChats(folderId) => IsInt(folderId)
    case _ => true
  }

  function Flag(flag: bool): string {
    if flag then "!" else ""
  }

  /** The tag of a message count: a filter's name, whether a local count will do, and a chat id. */
  function CountTag(name: string, local: bool, number: string): string {
    (name + Flag(local)) + ":" + number
  }

  function Tag(request: Request): string {
    match request
    case WithId(id) => "R" + Number(id)
    case ChatHistory(chatId, extra) => Number(chatId) + ":" + Number(extra)
    case Search(chatId, filter, extra) => Number(chatId) + ":" + (Number(filter) + ":" + Number(extra))
    case ThreadHistory(chatId, messageId, extra) =>
      "thread" + ":" + (Number(chatId) + ":" + (Number(messageId) + ":" + Number(extra)))
    case TopicHistory(chatId, topicId, extra) =>
      "forumTopic" + ":" + (Number(chatId) + ":" + (Number(topicId) + ":" + Number(extra)))
    case SuggestedFileName(flag, path) => "getSuggestedFileName" + ":" + (Flag(flag) + ":" + path)
    case ExternalLinkInfo(flag, link) => "getExternalLinkInfo" + ":" + (Flag(flag) + ":" + link)
    case WebBrowserType(flag, link) => "getLinkWebBrowserType" + ":" + (Flag(flag) + ":" + link)
    case LoginUrl(link) => "openLoginUrl" + ":" + link
    case ForumTopic(chatId, topicId) => "getForumTopic" + ":" + (Number(chatId) + ":" + Number(topicId))
    case SavedSound(soundId) => "getSavedNotificationSound" + ":" + soundId
    case LoadChats(archive) => "loadChats" + ":" + Flag(archive)
    case LoadFolderChats(folderId) => "loadChatsForFolder" + ":" + Number(folderId)
    case Ping => "ping"
  }

  /** The parts between the colons of a tag. */
  function Parts(request: Request): seq<string> {
    match request
    case WithId(id) => ["R" + Number(id)]
    case ChatHistory(chatId, extra) => [Number(chatId), Number(extra)]
    case Search(chatId, filter, extra) => [Number(chatId), Number(filter), Number(extra)]
    case ThreadHistory(chatId, messageId, extra) => ["thread", Number(chatId), Number(messageId), Number(extra)]
    case TopicHistory(chatId, topicId, extra) => ["forumTopic", Number(chatId), Number(topicId), Number(extra)]
    case SuggestedFileName(flag, path) => ["getSuggestedFileName", Flag(flag)] + Split(path)
    case ExternalLinkInfo(flag, link) => ["getExternalLinkInfo", Flag(flag)] + Split(link)
    case WebBrowserType(flag, link) => ["getLinkWebBrowserType", Flag(flag)] + Split(link)
    case LoginUrl(link) => ["openLoginUrl"] + Split(link)
    case ForumTopic(chatId, topicId) => ["getForumTopic", Number(chatId), Number(topicId)]
    case SavedSound(soundId) => ["getSavedNotificationSound"] + Split(soundId)
    case LoadChats(archive) => ["loadChats", Flag(archive)]
    case LoadFolderChats(folderId) => ["loadChatsForFolder", Number(folderId)]
    case Ping => ["ping"]
  }

  lemma {:induction false} TagParts(request: Request)
    ensures Split(Tag(request)) == Parts(request)
  {
    match request
    case WithId(id) => IdPart(id);
    case ChatHistory(chatId, extra) => TwoNumbers(chatId, extra);
    case Search(chatId, filter, extra) => ThreeNumbers(chatId, filter, extra);
    case ThreadHistory(chatId, messageId, extra) => NamedNumbers("thread", chatId, messageId, extra);
    case TopicHistory(chatId, topicId, extra) => NamedNumbers("forumTopic", chatId, topicId, extra);
    case SuggestedFileName(flag, path) => FlagParts("getSuggestedFileName", flag, path);
    case ExternalLinkInfo(flag, link) => FlagParts("getExternalLinkInfo", flag, link);
    case WebBrowserType(flag, link) => FlagParts("getLinkWebBrowserType", flag, link);
    case LoginUrl(link) => SplitFirst("openLoginUrl", link);
    case SavedSound(soundId) => SplitFirst("getSavedNotificationSound", soundId);
    case Ping => SplitWhole("ping");
    case _ => ShortTagParts(request);
  }

  lemma {:induction false} ShortTagParts(request: Request)
    requires request.ForumTopic? || request.LoadChats? || request.LoadFolderChats?
    ensures Split(Tag(request)) == Parts(request)
  {
    match request
    case ForumTopic(chatId, topicId) =>
      TwoNumbers(chatId, topicId);
      SplitFirst("getForumTopic", Number(chatId) + ":" + Number(topicId));
    case LoadChats(archive) =>
      SplitWhole(Flag(archive));
      SplitFirst("loadChats", Flag(archive));
    case LoadFolderChats(folderId) =>
      NumberNoColon(folderId);
      SplitWhole(Number(folderId));
      SplitFirst("loadChatsForFolder", Number(folderId));
  }

  lemma {:induction false} IdPart(id: nat)
    ensures Split("R" + Number(id)) == ["R" + Number(id)]
  {
    NumberNoColon(id);
    SplitWhole("R" + Number(id));
  }

  lemma {:induction false} NamedNumbers(name: string, a: int, b: int, c: int)
    requires NoColon(name)
    ensures Split(name + ":" + (Number(a) + ":" + (Number(b) + ":" + Number(c))))
            == [name, Number(a), Number(b), Number(c)]
  {
    ThreeNumbers(a, b, c);
    SplitFirst(name, Number(a) + ":" + (Number(b) + ":" + Number(c)));
  }

  lemma {:induction false} TwoNumbers(a: int, b: int)
    ensures Split(Number(a) + ":" + Number(b)) == [Number(a), Number(b)]
  {
    NumberNoColon(a);
    NumberNoColon(b);
    SplitWhole(Number(b));
    SplitFirst(Number(a), Number(b));
  }

  lemma {:induction false} ThreeNumbers(a: int, b: int, c: int)
    ensures Split(Number(a) + ":" + (Number(b) + ":" + Number(c))) == [Number(a), Number(b), Number(c)]
  {
    NumberNoColon(a);
    TwoNumbers(b, c);
    SplitFirst(Number(a), Number(b) + ":" + Number(c));
  }

  lemma {:induction false} FlagParts(name: string, flag: bool, text: string)
    requires NoColon(name)
    ensures Split(name + ":" + (Flag(flag) + ":" + text)) == [name, Flag(flag)] + Split(text)
  {
    SplitFirst(Flag(flag), text);
    SplitFirst(name, Flag(flag) + ":" + text);
  }

  /** The number of an answer to a request with an id: R and nothing but digits. As in any such pattern, a line break
      at the very end is overlooked. */
  function RequestIdOf(extra: string): (id: int)
  {
    var body := WithoutLastBreak(extra);
    if |body| > 1 && body[0] == 'R' && AllDigits(body[1..]) then ToLong(body[1..]) else -1
  }

  function WithoutLastBreak(s: string): string {
    if s != [] && s[|s| - 1] == '\n' then s[..|s| - 1] else s
  }

  /** An answer with messages. */
  datatype Messages =
    | ThreadMessages(chatId: int, messageId: int, extra: int)
    | TopicMessages(chatId: int, topicId: int, extra: int)
    | ChatMessages(chatId: int, extra: int)

  function ProcessMessages(extra: string): Messages {
    var parts := Split(extra);
    if Part(parts, 0) == "thread" then
      ThreadMessages(ToLong(Part(parts, 1)), ToLong(Part(parts, 2)), ToInt(Part(parts, 3)))
    else if Part(parts, 0) == "forumTopic" then
      TopicMessages(ToLong(Part(parts, 1)), ToInt(Part(parts, 2)), ToInt(Part(parts, 3)))
    else ChatMessages(ToLong(Part(parts, 0)), ToInt(Part(parts, 1)))
  }

  function ProcessFoundChatMessages(extra: string): (int, int, int) {
    var parts := Split(extra);
    (ToLong(Part(parts, 0)), ToInt(Part(parts, 1)), ToInt(Part(parts, 2)))
  }

  /** An answer with a number. */
  datatype Count = Counted(filterName: SearchFilter, local: bool, chatId: int) | OtherCount

  /** A match of the pattern for message counts: a filter's name, an exclamation mark for a local count, a colon, and a
      chat id. Neither of the two sides can hold a colon, so there are exactly two parts. */
  datatype CountMatch = CountMatch(name: string, local: bool, number: string) | NoMatch

  function MatchCount(extra: string): CountMatch {
    var parts := Split(WithoutLastBreak(extra));
    if |parts| == 2 && IsFilterName(WithoutMark(parts[0])) && IsChatId(parts[1]) then
      CountMatch(WithoutMark(parts[0]), WithoutMark(parts[0]) != parts[0], parts[1])
    else NoMatch
  }

  function HandleCountReceived(extra: string): Count {
    var found := MatchCount(extra);
    if found.CountMatch? then Counted(FilterForType(found.name), found.local, ToLong(found.number)) else OtherCount
  }

  function WithoutMark(s: string): string {
    if s != [] && s[|s| - 1] == '!' then s[..|s| - 1] else s
  }

  predicate IsFilterName(s: string) {
    |s| > |FILTER_PREFIX| && s[..|FILTER_PREFIX|] == FILTER_PREFIX
    && forall k :: |FILTER_PREFIX| <= k < |s| ==> IsLetter(s[k])
  }

  predicate IsChatId(s: string) {
    AllDigits(s) || (s[0] == '-' && AllDigits(s[1..]))
  }

  /** An answer with a suggested file name, or any other text. */
  datatype Text = CopyTo(flag: bool, path: string) | OtherText

  function HandleTextReceived(extra: string): Text {
    var parts := Split(extra);
    if |parts| >= 3 && parts[0] == "getSuggestedFileName" then CopyTo(parts[1] != "", Join(parts[2..])) else OtherText
  }

  /** Whether the confirmation is skipped, and the link. */
  function ProcessWebBrowserType(extra: string): (bool, string) {
    var parts := Split(extra);
    (Part(parts, 1) != "", Join(Rest(parts, 2)))
  }

  /** What an error answer leads to. */
  datatype Failure =
    | PingFailed
    | MessageNotFound(chatId: int, messageId: int)
    | AskWebBrowserType(link: string, skip: bool)
    | OpenUrl(link: string, skip: bool)
    | OutOfRange
    | TopicNotFound(chatId: int, topicId: int)
    | SoundNotFound(soundId: string)
    | AllChatsLoaded
    | CountFailed(filterName: SearchFilter, local: bool, countChat: int)
    | OtherFailure

  function HandleErrorReceived(code: int, extra: string): Failure {
    var parts := Split(extra);
    if extra == "" then OtherFailure
    else if extra == "ping" then PingFailed
    else if |parts| == 3 && parts[0] == "getMessage" then MessageNotFound(ToLong(parts[1]), ToLong(parts[2]))
    else if |parts| >= 3 && parts[0] == "getExternalLinkInfo" then AskWebBrowserType(Join(parts[2..]), parts[1] != "")
    else if |parts| >= 2 && parts[0] == "openLoginUrl" then AskWebBrowserType(Join(Rest(parts, 2)), true)
    else if |parts| >= 3 && parts[0] == "getLinkWebBrowserType" then
      if |parts| > 3 then OpenUrl(parts[3], parts[1] != "") else OutOfRange
    else if |parts| == 3 && parts[0] == "getForumTopic" then TopicNotFound(ToLong(parts[1]), ToInt(parts[2]))
    else if |parts| == 2 && parts[0] == "getSavedNotificationSound" then SoundNotFound(parts[1])
    else if code == 404 && |parts| == 2 && (parts[0] == "loadChats" || parts[0] == "loadChatsForFolder") then
      AllChatsLoaded
    else
      var count := HandleCountReceived(extra);
      if count.Counted? then CountFailed(count.filterName, count.local, count.chatId) else OtherFailure
  }

  lemma {:induction false} NumberStart(n: int)
    ensures Number(n)[0] == '-' || IsDigit(Number(n)[0])
  {
  }

  /** What the first letter of a tag rules out. */
  lemma {:induction false} FirstLetter(tag: string)
    requires tag != [] && tag[0] != ':'
    ensures Split(tag)[0] != [] && Split(tag)[0][0] == tag[0]
    ensures tag[0] != 'R' ==> RequestIdOf(tag) == -1
    ensures tag[0] != 's' ==> HandleCountReceived(tag).OtherCount?
  {
    var body := WithoutLastBreak(tag);
    var first := Split(body)[0];
    if body != [] {
      assert first[0] == tag[0];
    }
    if IsFilterName(WithoutMark(first)) {
      assert FILTER_PREFIX[0] == 's';
      assert WithoutMark(first)[..|FILTER_PREFIX|][0] == first[0];
    }
  }

  /** The letter a tag starts with. */
  predicate StartsWith(request: Request, c: char) {
    match request
    case WithId(_) => c == 'R'
    case ChatHistory(_, _) => c == '-' || IsDigit(c)
    case Search(_, _, _) => c == '-' || IsDigit(c)
    case ThreadHistory(_, _, _) => c == 't'
    case TopicHistory(_, _, _) => c == 'f'
    case LoginUrl(_) => c == 'o'
    case LoadChats(_) => c == 'l'
    case LoadFolderChats(_) => c == 'l'
    case Ping => c == 'p'
    case _ => c == 'g'
  }

  lemma {:induction false} TagFirstLetter(request: Request)
    ensures Tag(request) != [] && StartsWith(request, Tag(request)[0])
  {
    match request
    case ChatHistory(chatId, extra) => NumberStart(chatId);
    case Search(chatId, filter, extra) => NumberStart(chatId);
    case _ =>
  }

  lemma {:induction false} IdRead(id: nat)
    requires IsLong(id)
    ensures RequestIdOf("R" + Number(id)) == id
  {
    DigitsValue(id);
    NumberRoundTrip(id, LONG_MIN, LONG_MAX);
    var tag := "R" + Number(id);
    assert tag[1..] == DigitsOf(id);
    assert tag[|tag| - 1] == DigitsOf(id)[|DigitsOf(id)| - 1];
  }

  /** Of all tags only those of requests with an id are read as one, and they give their id back. */
  lemma {:induction false} OnlyIdsAreIds(request: Request)
    requires Typed(request)
    ensures RequestIdOf(Tag(request)) == if request.WithId? then request.id else -1
  {
    TagFirstLetter(request);
    if request.WithId? {
      IdRead(request.id);
    } else {
      FirstLetter(Tag(request));
    }
  }

  /** Answers with messages reach their branch with the values of the request. */
  lemma {:induction false} MessagesRoundTrip(request: Request)
    requires Typed(request)
    ensures request.ChatHistory? ==> ProcessMessages(Tag(request)) == ChatMessages(request.chatId, request.extra)
    ensures request.ThreadHistory? ==>
              ProcessMessages(Tag(request)) == ThreadMessages(request.chatId, request.messageId, request.extra)
    ensures request.TopicHistory? ==>
              ProcessMessages(Tag(request)) == TopicMessages(request.chatId, request.topicId, request.extra)
    ensures request.Search? ==>
              ProcessFoundChatMessages(Tag(request)) == (request.chatId, request.filter, request.extra)
  {
    TagParts(request);
    match request
    case ChatHistory(chatId, extra) => HistoryRead(chatId, extra);
    case Search(chatId, filter, extra) => SearchRead(chatId, filter, extra);
    case ThreadHistory(chatId, messageId, extra) => ThreadRead(chatId, messageId, extra);
    case TopicHistory(chatId, topicId, extra) => TopicRead(chatId, topicId, extra);
    case _ =>
  }

  lemma {:induction false} HistoryRead(chatId: int, extra: int)
    requires Typed(ChatHistory(chatId, extra))
    ensures ProcessMessages(Tag(ChatHistory(chatId, extra))) == ChatMessages(chatId, extra)
  {
    TagParts(ChatHistory(chatId, extra));
    LongRoundTrip(chatId);
    IntRoundTrip(extra);
    NoListName(chatId);
  }

  lemma {:induction false} NoListName(n: int)
    ensures Number(n) != "thread" && Number(n) != "forumTopic"
  {
    NumberStart(n);
    assert "thread"[0] == 't' && "forumTopic"[0] == 'f';
  }

  lemma {:induction false} SearchRead(chatId: int, filter: int, extra: int)
    requires Typed(Search(chatId, filter, extra))
    ensures ProcessFoundChatMessages(Tag(Search(chatId, filter, extra))) == (chatId, filter, extra)
  {
    TagParts(Search(chatId, filter, extra));
    LongRoundTrip(chatId);
    IntRoundTrip(filter);
    IntRoundTrip(extra);
  }

  lemma {:induction false} ThreadRead(chatId: int, messageId: int, extra: int)
    requires Typed(ThreadHistory(chatId, messageId, extra))
    ensures ProcessMessages(Tag(ThreadHistory(chatId, messageId, extra))) == ThreadMessages(chatId, messageId, extra)
  {
    TagParts(ThreadHistory(chatId, messageId, extra));
    LongRoundTrip(chatId);
    LongRoundTrip(messageId);
    IntRoundTrip(extra);
  }

  lemma {:induction false} TopicRead(chatId: int, topicId: int, extra: int)
    requires Typed(TopicHistory(chatId, topicId, extra))
    ensures ProcessMessages(Tag(TopicHistory(chatId, topicId, extra))) == TopicMessages(chatId, topicId, extra)
  {
    TagParts(TopicHistory(chatId, topicId, extra));
    LongRoundTrip(chatId);
    IntRoundTrip(topicId);
    IntRoundTrip(extra);
    assert "thread"[0] == 't' && "forumTopic"[0] == 'f';
  }

  lemma {:induction false} LongRoundTrip(n: int)
    requires IsLong(n)
    ensures ToLong(Number(n)) == n
  {
    NumberRoundTrip(n, LONG_MIN, LONG_MAX);
  }

  lemma {:induction false} IntRoundTrip(n: int)
    requires IsInt(n)
    ensures ToInt(Number(n)) == n
  {
    NumberRoundTrip(n, INT_MIN, INT_MAX);
  }

  /** Paths and links come back whole, colons and all, from answers and from errors. */
  lemma {:induction false} TextRoundTrip(flag: bool, text: string, code: int)
    ensures HandleTextReceived(Tag(SuggestedFileName(flag, text))) == CopyTo(flag, text)
    ensures ProcessWebBrowserType(Tag(WebBrowserType(flag, text))) == (flag, text)
    ensures HandleErrorReceived(code, Tag(ExternalLinkInfo(flag, text))) == AskWebBrowserType(text, flag)
  {
    FileNameRead(flag, text);
    BrowserRead(flag, text);
    LinkError(code, flag, text);
  }

  lemma {:induction false} FileNameRead(flag: bool, path: string)
    ensures HandleTextReceived(Tag(SuggestedFileName(flag, path))) == CopyTo(flag, path)
  {
    TagParts(SuggestedFileName(flag, path));
    JoinSplit(path);
    assert (["getSuggestedFileName", Flag(flag)] + Split(path))[2..] == Split(path);
  }

  lemma {:induction false} BrowserRead(flag: bool, link: string)
    ensures ProcessWebBrowserType(Tag(WebBrowserType(flag, link))) == (flag, link)
  {
    TagParts(WebBrowserType(flag, link));
    JoinSplit(link);
    assert (["getLinkWebBrowserType", Flag(flag)] + Split(link))[2..] == Split(link);
  }

  lemma {:induction false} LinkError(code: int, flag: bool, link: string)
    ensures HandleErrorReceived(code, Tag(ExternalLinkInfo(flag, link))) == AskWebBrowserType(link, flag)
  {
    var tag := Tag(ExternalLinkInfo(flag, link));
    TagParts(ExternalLinkInfo(flag, link));
    JoinSplit(link);
    assert (["getExternalLinkInfo", Flag(flag)] + Split(link))[2..] == Split(link);
    assert tag[0] == 'g' && "ping"[0] == 'p' && "getExternalLinkInfo"[3] == 'E' && "getMessage"[3] == 'M';
  }

  /** Message counts come back with their filter, flag and chat, from answers and from errors; their tags are no
      request ids. */
  lemma {:induction false} CountRoundTrip(filter: SearchFilter, local: bool, chatId: int, code: int)
    requires IsLong(chatId)
    ensures var tag := CountTag(FilterType(filter), local, Number(chatId));
            && HandleCountReceived(tag) == Counted(filter, local, chatId)
            && HandleErrorReceived(code, tag) == CountFailed(filter, local, chatId)
            && RequestIdOf(tag) == -1
  {
    var name, number := FilterType(filter), Number(chatId);
    CountTagMatches(filter, local, chatId);
    FilterRoundTrip(filter);
    LongRoundTrip(chatId);
    CountTagStart(name, local, number);
    PlainError(code, CountTag(name, local, number));
  }

  lemma {:induction false} CountTagStart(name: string, local: bool, number: string)
    requires name != [] && name[0] == 's'
    ensures CountTag(name, local, number) != [] && CountTag(name, local, number)[0] == 's'
    ensures RequestIdOf(CountTag(name, local, number)) == -1
  {
    FirstLetter(CountTag(name, local, number));
  }

  lemma {:induction false} CountTagMatches(filter: SearchFilter, local: bool, chatId: int)
    ensures MatchCount(CountTag(FilterType(filter), local, Number(chatId)))
            == CountMatch(FilterType(filter), local, Number(chatId))
  {
    FilterIsName(filter);
    NumberNoColon(chatId);
    ChatIdShape(chatId);
    CountRead(FilterType(filter), local, Number(chatId));
  }

  lemma {:induction false} CountRead(name: string, local: bool, number: string)
    requires NoColon(name) && IsFilterName(name)
    requires NoColon(number) && IsChatId(number) && number != [] && number[|number| - 1] != '\n'
    ensures MatchCount(CountTag(name, local, number)) == CountMatch(name, local, number)
  {
    var marked := name + Flag(local);
    assert local ==> marked[..|name|] == name;
    assert !local ==> marked == name;
    assert WithoutMark(marked) == name;
    SplitWhole(number);
    SplitFirst(marked, number);
    var extra := marked + ":" + number;
    assert extra[|extra| - 1] == number[|number| - 1];
    assert WithoutLastBreak(extra) == extra;
  }

  lemma {:induction false} FilterIsName(filter: SearchFilter)
    ensures NoColon(FilterType(filter)) && IsFilterName(FilterType(filter))
  {
    LettersName(Suffix(filter));
  }

  lemma {:induction false} LettersName(suffix: string)
    requires suffix != [] && forall k :: 0 <= k < |suffix| ==> IsLetter(suffix[k])
    ensures NoColon(FILTER_PREFIX + suffix) && IsFilterName(FILTER_PREFIX + suffix)
  {
    var name := FILTER_PREFIX + suffix;
    PrefixLetters();
    assert name[..|FILTER_PREFIX|] == FILTER_PREFIX;
    assert forall k :: |FILTER_PREFIX| <= k < |name| ==> name[k] == suffix[k - |FILTER_PREFIX|];
  }

  lemma {:induction false} PrefixLetters()
    ensures forall k :: 0 <= k < |FILTER_PREFIX| ==> IsLetter(FILTER_PREFIX[k])
  {
  }

  /** Errors of the other requests are passed on and taken for nothing else. */
  lemma {:induction false} OtherErrorsPassedOn(request: Request, code: int)
    requires !request.ExternalLinkInfo? && !request.WebBrowserType? && !request.LoginUrl? && !request.ForumTopic?
    requires !request.SavedSound? && !request.LoadChats? && !request.LoadFolderChats? && !request.Ping?
    ensures HandleErrorReceived(code, Tag(request)) == OtherFailure
  {
    if request.SuggestedFileName? {
      FileNameError(code, request.flag, request.path);
    } else {
      TagFirstLetter(request);
      PassedOn(code, Tag(request));
    }
  }

  lemma {:induction false} PassedOn(code: int, tag: string)
    requires tag != [] && tag[0] !in ":pgols"
    ensures HandleErrorReceived(code, tag) == OtherFailure
  {
    PlainError(code, tag);
    FirstLetter(tag);
  }

  lemma {:induction false} PlainError(code: int, tag: string)
    requires tag != [] && tag[0] !in ":pgol"
    ensures var count := HandleCountReceived(tag);
            HandleErrorReceived(code, tag)
            == if count.Counted? then CountFailed(count.filterName, count.local, count.chatId) else OtherFailure
  {
    FirstLetter(tag);
    assert "ping"[0] == 'p' && "getMessage"[0] == 'g' && "getExternalLinkInfo"[0] == 'g' && "openLoginUrl"[0] == 'o';
    assert "getLinkWebBrowserType"[0] == 'g' && "getForumTopic"[0] == 'g' && "getSavedNotificationSound"[0] == 'g';
    assert "loadChats"[0] == 'l' && "loadChatsForFolder"[0] == 'l';
  }

  lemma {:induction false} FileNameError(code: int, flag: bool, path: string)
    ensures HandleErrorReceived(code, Tag(SuggestedFileName(flag, path))) == OtherFailure
  {
    var tag := Tag(SuggestedFileName(flag, path));
    TagParts(SuggestedFileName(flag, path));
    TagFirstLetter(SuggestedFileName(flag, path));
    FirstLetter(tag);
    assert Split(tag)[0] == "getSuggestedFileName" && |Split(tag)| >= 3;
    FileNameBranch();
    assert tag != "ping" by { assert "ping"[0] == 'p'; }
  }

  lemma {:induction false} FileNameBranch()
    ensures "getSuggestedFileName"
            !in ["getMessage", "getExternalLinkInfo", "openLoginUrl", "getLinkWebBrowserType", "getForumTopic"]
  {
    var name := "getSuggestedFileName";
    assert name[0] == 'g' && name[3] == 'S' && "getMessage"[3] == 'M' && "getExternalLinkInfo"[3] == 'E';
    assert "openLoginUrl"[0] == 'o' && "getLinkWebBrowserType"[3] == 'L' && "getForumTopic"[3] == 'F';
  }

  /** What a success answer without content leads to. */
  datatype Success = ChatsLoaded(archive: bool) | FolderChatsLoaded(folderId: int) | OtherSuccess

  function HandleOkReceived(extra: string): Success {
    var parts := Split(extra);
    if extra != "" && |parts| == 2 && parts[0] == "loadChats" then ChatsLoaded(parts[1] != "")
    else if extra != "" && |parts| == 2 && parts[0] == "loadChatsForFolder" then FolderChatsLoaded(ToInt(parts[1]))
    else OtherSuccess
  }

  /** The letters that tell the names of the branches apart. */
  lemma {:induction false} BranchNames()
    ensures "getForumTopic" !in ["getMessage", "getExternalLinkInfo", "openLoginUrl", "getLinkWebBrowserType"]
    ensures "getSavedNotificationSound"
            !in ["getMessage", "getExternalLinkInfo", "openLoginUrl", "getLinkWebBrowserType", "getForumTopic"]
    ensures "loadChats" != "loadChatsForFolder"
  {
    var topic, sound := "getForumTopic", "getSavedNotificationSound";
    assert topic[0] == 'g' && topic[3] == 'F' && sound[0] == 'g' && sound[3] == 'S';
    assert "getMessage"[3] == 'M' && "getExternalLinkInfo"[3] == 'E' && "getLinkWebBrowserType"[3] == 'L';
    assert "openLoginUrl"[0] == 'o' && |"loadChats"| != |"loadChatsForFolder"|;
  }

  lemma {:induction false} TopicError(code: int, chatId: int, topicId: int)
    requires IsLong(chatId) && IsInt(topicId)
    ensures HandleErrorReceived(code, Tag(ForumTopic(chatId, topicId))) == TopicNotFound(chatId, topicId)
  {
    var tag := Tag(ForumTopic(chatId, topicId));
    TagParts(ForumTopic(chatId, topicId));
    LongRoundTrip(chatId);
    IntRoundTrip(topicId);
    BranchNames();
    assert tag[0] == 'g' && "ping"[0] == 'p';
  }

  lemma {:induction false} SoundBranch(code: int, tag: string)
    requires tag != "" && tag[0] == 'g' && Split(tag)[0] == "getSavedNotificationSound"
    ensures HandleErrorReceived(code, tag) == if |Split(tag)| == 2 then SoundNotFound(Split(tag)[1]) else OtherFailure
  {
    BranchNames();
    FirstLetter(tag);
    assert "ping"[0] == 'p' && "loadChats"[0] == 'l' && "loadChatsForFolder"[0] == 'l';
  }

  lemma {:induction false} SoundError(code: int, soundId: string)
    ensures HandleErrorReceived(code, Tag(SavedSound(soundId)))
            == if NoColon(soundId) then SoundNotFound(soundId) else OtherFailure
  {
    TagParts(SavedSound(soundId));
    SplitAtColon(soundId);
    if NoColon(soundId) {
      SplitWhole(soundId);
    }
    SoundBranch(code, Tag(SavedSound(soundId)));
  }

  lemma {:induction false} LoadError(code: int, request: Request)
    requires request.LoadChats? || request.LoadFolderChats?
    ensures HandleErrorReceived(code, Tag(request)) == if code == 404 then AllChatsLoaded else OtherFailure
  {
    var tag := Tag(request);
    TagParts(request);
    TagFirstLetter(request);
    FirstLetter(tag);
    assert tag[0] == 'l' && "ping"[0] == 'p' && "getMessage"[0] == 'g' && "getExternalLinkInfo"[0] == 'g';
    assert "openLoginUrl"[0] == 'o' && "getLinkWebBrowserType"[0] == 'g' && "getForumTopic"[0] == 'g';
    assert "getSavedNotificationSound"[0] == 'g';
  }

  /** Errors of the other requests with a branch of their own reach it with their values; a sound's id does if it holds
      no colon, and the end of a chat list is told by the code 404. */
  lemma {:induction false} ErrorRoundTrip(request: Request, code: int)
    requires Typed(request)
    ensures match request
            case ForumTopic(chatId, topicId) =>
              HandleErrorReceived(code, Tag(request)) == TopicNotFound(chatId, topicId)
            case SavedSound(soundId) =>
              HandleErrorReceived(code, Tag(request))
              == if NoColon(soundId) then SoundNotFound(soundId) else OtherFailure
            case LoadChats(_) =>
              HandleErrorReceived(code, Tag(request)) == if code == 404 then AllChatsLoaded else OtherFailure
            case LoadFolderChats(_) =>
              HandleErrorReceived(code, Tag(request)) == if code == 404 then AllChatsLoaded else OtherFailure
            case Ping => HandleErrorReceived(code, Tag(request)) == PingFailed
            case _ => true
  {
    match request
    case ForumTopic(chatId, topicId) => TopicError(code, chatId, topicId);
    case SavedSound(soundId) => SoundError(code, soundId);
    case LoadChats(_) => LoadError(code, request);
    case LoadFolderChats(_) => LoadError(code, request);
    case _ =>
  }

  /** Loaded chunks of a chat list are told apart by their list. */
  lemma {:induction false} OkRoundTrip(request: Request)
    requires Typed(request) && (request.LoadChats? || request.LoadFolderChats?)
    ensures HandleOkReceived(Tag(request))
            == if request.LoadChats? then ChatsLoaded(request.archive) else FolderChatsLoaded(request.folderId)
  {
    TagParts(request);
    BranchNames();
    if request.LoadFolderChats? {
      IntRoundTrip(request.folderId);
    }
  }

  /** No tag is printed that leads to the branch for messages that are not found. */
  lemma {:induction false} NoMessageNotFound(request: Request, code: int)
    requires Typed(request)
    ensures !HandleErrorReceived(code, Tag(request)).MessageNotFound?
  {
    TagParts(request);
    var first := Split(Tag(request))[0];
    assert first == Parts(request)[0];
    NotGetMessage(request);
  }

  lemma {:induction false} NotGetMessage(request: Request)
    ensures Parts(request)[0] != "getMessage"
  {
    var name := "getMessage";
    assert name[0] == 'g' && name[3] == 'M';
    match request
    case ChatHistory(chatId, _) => NumberStart(chatId);
    case Search(chatId, _, _) => NumberStart(chatId);
    case _ =>
      assert "getSuggestedFileName"[3] == 'S' && "getExternalLinkInfo"[3] == 'E' && "getLinkWebBrowserType"[3] == 'L';
      assert "getForumTopic"[3] == 'F' && "getSavedNotificationSound"[3] == 'S' && "forumTopic"[0] == 'f';
      assert "thread"[0] == 't' && "openLoginUrl"[0] == 'o' && "loadChats"[0] == 'l' && "loadChatsForFolder"[0] == 'l';
      assert "ping"[0] == 'p';
  }

  /** The text behind the first colon; nothing if there is none. */
  function BehindColon(s: string): (r: string)
    ensures NoColon(s) ==> r == ""
    ensures !NoColon(s) ==> exists k :: 0 <= k < |s| && NoColon(s[..k]) && s[k] == ':' && r == s[k + 1..]
  {
    ColonPlace(s);
    if s == "" then "" else if s[0] == ':' then s[1..] else BehindColon(s[1..])
  }

  /** The text before the first colon; all of it if there is none. */
  function BeforeColon(s: string): (r: string)
    ensures NoColon(r) && r <= s && (r == s || (|r| < |s| && s[|r|] == ':'))
  {
    if s == "" || s[0] == ':' then "" else [s[0]] + BeforeColon(s[1..])
  }

  lemma {:induction false} ColonPlace(s: string)
    ensures s != "" ==> (NoColon(s) <==> s[0] != ':' && NoColon(s[1..]))
    ensures s != "" && s[0] != ':' ==>
              forall k :: 0 <= k < |s| - 1 && NoColon(s[1..][..k]) ==>
                NoColon(s[..k + 1]) && s[1..][k + 1..] == s[k + 2..]
  {
    if s != "" {
      var tail := s[1..];
      assert forall k :: 1 <= k < |s| ==> s[k] == tail[k - 1];
      forall k | s[0] != ':' && 0 <= k < |s| - 1 && NoColon(tail[..k])
        ensures NoColon(s[..k + 1]) && tail[k + 1..] == s[k + 2..]
      {
        assert s[..k + 1] == [s[0]] + tail[..k];
      }
    }
  }

  lemma {:induction false} SplitAtColon(s: string)
    ensures Split(s)[0] == BeforeColon(s)
    ensures Split(s)[1..] == if NoColon(s) then [] else Split(BehindColon(s))
  {
    ColonPlace(s);
    if s != "" {
      SplitAtColon(s[1..]);
      var rest := Split(s[1..]);
      if s[0] == ':' {
        assert Split(s)[1..] == rest;
      } else {
        assert Split(s)[1..] == rest[1..];
      }
    }
  }

  lemma {:induction false} LoginBranch(code: int, tag: string)
    requires |Split(tag)| >= 2 && Split(tag)[0] == "openLoginUrl" && tag != "" && tag[0] == 'o'
    ensures HandleErrorReceived(code, tag) == AskWebBrowserType(Join(Split(tag)[1..][1..]), true)
  {
    assert "ping"[0] == 'p' && "getMessage"[0] == 'g' && "getExternalLinkInfo"[0] == 'g';
    var parts := Split(tag);
    assert Rest(parts, 2) == parts[1..][1..];
  }

  /** Two branches do not undo their printers. Of a login link only the text behind its first colon comes back, */
  lemma {:induction false} LoginLinkShortened(code: int, link: string)
    ensures HandleErrorReceived(code, Tag(LoginUrl(link))) == AskWebBrowserType(BehindColon(link), true)
    ensures BehindColon(link) == link <==> link == ""
  {
    var tag := Tag(LoginUrl(link));
    TagParts(LoginUrl(link));
    TagFirstLetter(LoginUrl(link));
    assert Split(tag)[1..] == Split(link);
    LoginBranch(code, tag);
    SplitAtColon(link);
    JoinSplit(BehindColon(link));
  }

  lemma {:induction false} BrowserBranch(code: int, tag: string)
    requires |Split(tag)| >= 3 && Split(tag)[0] == "getLinkWebBrowserType" && tag != "" && tag[0] == 'g'
    ensures HandleErrorReceived(code, tag)
            == if |Split(tag)| > 3 then OpenUrl(Split(tag)[3], Split(tag)[1] != "") else OutOfRange
  {
    var name := "getLinkWebBrowserType";
    assert name[0] == 'g' && name[3] == 'L';
    assert "ping"[0] == 'p' && "getMessage"[3] == 'M' && "getExternalLinkInfo"[3] == 'E' && "openLoginUrl"[0] == 'o';
  }

  /** and of a link whose browser is unknown the text between its first two colons is opened; without a colon
      the access is out of range. */
  lemma {:induction false} BrowserLinkShortened(code: int, flag: bool, link: string)
    ensures HandleErrorReceived(code, Tag(WebBrowserType(flag, link)))
            == if NoColon(link) then OutOfRange else OpenUrl(BeforeColon(BehindColon(link)), flag)
    ensures !NoColon(link) ==> BeforeColon(BehindColon(link)) != link
  {
    var tag := Tag(WebBrowserType(flag, link));
    TagParts(WebBrowserType(flag, link));
    TagFirstLetter(WebBrowserType(flag, link));
    BrowserBranch(code, tag);
    SplitAtColon(link);
    SplitAtColon(BehindColon(link));
    assert Split(tag)[2..] == Split(link);
    assert |Split(tag)| > 3 ==> Split(tag)[3] == Split(link)[1..][0];
  }

  lemma {:induction false} ChatIdShape(chatId: int)
    ensures IsChatId(Number(chatId)) && Number(chatId)[|Number(chatId)| - 1] != '\n'
  {
    var last := Number(chatId)[|Number(chatId)| - 1];
    assert last == '-' || IsDigit(last);
    if chatId < 0 {
      DigitsValue(-chatId);
      assert Number(chatId)[1..] == DigitsOf(-chatId);
    } else {
      DigitsValue(chatId);
    }
  }

  /** Hands out request ids. */
  class RequestIds {
    var nextRequestId: nat

    constructor ()
      ensures nextRequestId == 0
    {
      nextRequestId := 0;
    }

    method PrepareRequestWithId() returns (extra: string)
      modifies this
      ensures extra == Tag(WithId(old(nextRequestId))) && nextRequestId == old(nextRequestId) + 1
    {
      extra := "R" + Number(nextRequestId);
      nextRequestId := nextRequestId + 1;
    }

    /** The answer to the request will be recognised by the id that is waited for, which no earlier request had. */
    method SendRequestWithId() returns (extra: string, waitedFor: nat)
      requires nextRequestId <= LONG_MAX
      modifies this
      ensures RequestIdOf(extra) == waitedFor
      ensures old(nextRequestId) <= waitedFor < nextRequestId
    {
      extra := PrepareRequestWithId();
      waitedFor := nextRequestId - 1;
      IdRead(waitedFor);
    }
  }
}
