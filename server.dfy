/**
 * The relay server's own logic, without Flask: the delivery-path and email
 * checks applied to request data, the list of delivery paths offered to a
 * client, and the selection of stored messages that make up a
 * conversation, each marked with whether the requesting device sent it.
 *
 * A JSON request value is a `Value`: a string, a list, or anything else.
 */
module Server {
  import opened Wrappers
  import opened Text

  datatype Value = Str(s: string) | List(items: seq<Value>) | Other

  // ---------------------------------------------------------------------------
  // Delivery paths

  const EmailAliases: seq<string> := ["email", "send_email", "gmail"]
  const SmsAliases: seq<string> := ["sms", "send_sms", "text", "message"]

  /** The delivery paths a user may enable. */
  const EnabledPaths: set<string> := {"email", "sms"}

  /** The delivery paths a message may be sent by. */
  const SendPaths: seq<string> := ["email", "sms", "windtexter"]

  /** The alias table applied to a cleaned path name. */
  function Canonical(clean: string): string
  {
    if clean in EmailAliases then "email"
    else if clean in SmsAliases then "sms"
    else clean
  }

  /** `normalize_path`: "" for an empty or non-string value, else the alias of the lowercased, trimmed string. */
  function NormalizePath(path: Value): string
  {
    match path
    case Str(s) => if s == "" then "" else Canonical(Strip(LowerString(s)))
    case _ => ""
  }

  /** A string that is its own lower case and has no whitespace at either end. */
  predicate Clean(s: string)
  {
    LowerString(s) == s && (s != [] ==> !IsSpace(s[0]) && !IsSpace(s[|s| - 1]))
  }

  lemma CleanStrip(s: string)
    ensures Clean(Strip(LowerString(s)))
  {
    var p := Strip(LowerString(s));
    StripLowerCommute(LowerString(s));
    LowerIdempotent(s);
    StripIsStrip(LowerString(s));
  }

  /** A string of lower-case letters and `_` is clean. */
  lemma CleanWord(s: string)
    requires forall i :: 0 <= i < |s| ==> 'a' <= s[i] <= 'z' || s[i] == '_'
    ensures Clean(s)
  {
  }

  /**
   * `normalize_path` gives "email", "sms", or the cleaned string itself
   * when it is no alias; it gives "" exactly for a non-string or a string
   * of whitespace; and its result is always lowercase and trimmed.
   */
  lemma NormalizeCases(path: Value)
    ensures var r := NormalizePath(path);
      (r == "" <==> !path.Str? || Strip(LowerString(path.s)) == "")
      && (path.Str? && Strip(LowerString(path.s)) in EmailAliases ==> r == "email")
      && (path.Str? && Strip(LowerString(path.s)) in SmsAliases ==> r == "sms")
      && (path.Str? && Strip(LowerString(path.s)) !in EmailAliases + SmsAliases ==> r == Strip(LowerString(path.s)))
      && Clean(r)
  {
    if path.Str? {
      CleanStrip(path.s);
      CleanWord("email");
      CleanWord("sms");
      if path.s == "" {
        assert LowerString(path.s) == "";
      }
    }
  }

  /** Normalising a normalised path changes nothing. */
  lemma NormalizeIdempotent(path: Value)
    ensures NormalizePath(Str(NormalizePath(path))) == NormalizePath(path)
  {
    var r := NormalizePath(path);
    NormalizeCases(path);
    if r != "" {
      StripUnchanged(r);
    }
  }

  /** `validate_path`: the normalised path is one a message can be sent by. */
  function ValidatePath(deliveryPath: Value): bool
  {
    NormalizePath(deliveryPath) in SendPaths
  }

  /** The eight spellings `validate_path` accepts once lowercased and trimmed. */
  const SendAliases: set<string> :=
    {"email", "send_email", "gmail", "sms", "send_sms", "text", "message", "windtexter"}

  /** `validate_path` accepts exactly the strings that lowercase and trim to one of eight spellings. */
  lemma ValidatePathAccepts(deliveryPath: Value)
    ensures ValidatePath(deliveryPath) <==>
      deliveryPath.Str? && Strip(LowerString(deliveryPath.s)) in SendAliases
  {
    if deliveryPath.Str? && deliveryPath.s == "" {
      assert LowerString(deliveryPath.s) == "";
    }
  }

  /** A path entry `validate_paths` lets through: it normalises to nothing or to an enabled path. */
  predicate Accepted(path: Value)
  {
    path.Str? && (NormalizePath(path) == "" || NormalizePath(path) in EnabledPaths)
  }

  /** What `validate_paths` decides: a list whose every entry is accepted. */
  predicate PathsValid(paths: Value)
  {
    paths.List? && forall i :: 0 <= i < |paths.items| ==> Accepted(paths.items[i])
  }

  /** `validate_paths`: a list check, then each entry in turn, stopping at the first refusal. */
  method ValidatePaths(paths: Value) returns (valid: bool)
    ensures valid == PathsValid(paths)
  {
    if !paths.List? {
      return false;
    }
    if |paths.items| == 0 {
      return true;
    }
    var i := 0;
    while i < |paths.items|
      invariant i <= |paths.items|
      invariant forall k :: 0 <= k < i ==> Accepted(paths.items[k])
    {
      var path := paths.items[i];
      if !path.Str? {
        return false;
      }
      var normalized := NormalizePath(path);
      if normalized != "" && normalized !in EnabledPaths {
        return false;
      }
      i := i + 1;
    }
    return true;
  }

  /** The enabled paths stored for a configuration: each entry normalised, empty results dropped. */
  function NormalizedPaths(items: seq<Value>): (r: seq<string>)
  {
    if items == [] then []
    else
      var n := NormalizePath(items[0]);
      (if n != "" then [n] else []) + NormalizedPaths(items[1..])
  }

  /**
   * Once `validate_paths` accepts a list, the stored configuration holds
   * only "email" and "sms", and holds each that some entry asked for.
   */
  lemma {:induction false} StoredPaths(items: seq<Value>)
    requires PathsValid(List(items))
    ensures forall p :: p in NormalizedPaths(items) ==> p in EnabledPaths
    ensures forall i :: 0 <= i < |items| && NormalizePath(items[i]) != "" ==>
      NormalizePath(items[i]) in NormalizedPaths(items)
  {
    if items != [] {
      assert PathsValid(List(items[1..])) by {
        assert forall i :: 0 <= i < |items[1..]| ==> items[1..][i] == items[i + 1];
      }
      StoredPaths(items[1..]);
      forall i | 0 <= i < |items| && NormalizePath(items[i]) != ""
        ensures NormalizePath(items[i]) in NormalizedPaths(items)
      {
        if i > 0 {
          assert items[i] == items[1..][i - 1];
        }
      }
    }
  }

  // ---------------------------------------------------------------------------
  // Email addresses

  /** The index of the first `c` in `s`, or `|s|` when there is none. */
  function Find(s: string, c: char): (r: nat)
    ensures r <= |s| && (r < |s| ==> s[r] == c)
    ensures forall k :: 0 <= k < r ==> s[k] != c
  {
    if s == [] || s[0] == c then 0 else 1 + Find(s[1..], c)
  }

  /** `str.split(sep)`: the pieces between the separators, in order. */
  function Split(s: string, sep: char): (r: seq<string>)
    ensures |r| >= 1 && r[0] == s[..Find(s, sep)]
    ensures sep in s ==> |r| >= 2
    ensures forall k :: 0 <= k < |r| ==> sep !in r[k]
    decreases |s|
  {
    var i := Find(s, sep);
    if i == |s| then [s]
    else [s[..i]] + Split(s[i + 1..], sep)
  }

  /** `sep.join(parts)`. */
  function Join(parts: seq<string>, sep: char): string
    requires |parts| >= 1
  {
    if |parts| == 1 then parts[0] else parts[0] + [sep] + Join(parts[1..], sep)
  }

  /** Joining the pieces with the separator gives the string back. */
  lemma {:induction false} JoinSplit(s: string, sep: char)
    ensures Join(Split(s, sep), sep) == s
    decreases |s|
  {
    var i := Find(s, sep);
    if i < |s| {
      JoinSplit(s[i + 1..], sep);
      assert s == s[..i] + [sep] + s[i + 1..];
    }
  }

  /** `e` has its first `@` at `i` and a `.` at `j` after it, with no `@` in between. */
  predicate EmailShape(e: string, i: int, j: int)
  {
    0 <= i < j < |e| && e[i] == '@' && e[j] == '.'
    && (forall k :: 0 <= k < j && k != i ==> e[k] != '@')
  }

  /** `validate_email`: an `@`, and a `.` in the piece after the first `@`, once trimmed and lowercased. */
  function ValidateEmail(email: Value): bool
  {
    match email
    case Str(s) =>
      if s == "" then false
      else
        var e := LowerString(Strip(s));
        '@' in e && '.' in Split(e, '@')[1]
    case _ => false
  }

  /** A first occurrence is found where it is. */
  lemma FindIs(s: string, c: char, i: nat)
    requires i <= |s| && (i < |s| ==> s[i] == c)
    requires forall k :: 0 <= k < i ==> s[k] != c
    ensures Find(s, c) == i
  {
  }

  /** The piece after the first `@` of a string that has one. */
  lemma SecondPiece(e: string) returns (i: nat, t: string, f: nat)
    requires '@' in e
    ensures i == Find(e, '@') && i < |e| && t == e[i + 1..] && f == Find(t, '@')
    ensures Split(e, '@')[1] == t[..f]
  {
    i := Find(e, '@');
    t := e[i + 1..];
    f := Find(t, '@');
  }

  /** A `.` in the piece after the first `@` gives the shape. */
  lemma ShapeOfValid(e: string)
    requires '@' in e && '.' in Split(e, '@')[1]
    ensures exists i, j :: EmailShape(e, i, j)
  {
    var i, t, f := SecondPiece(e);
    var j' :| 0 <= j' < f && t[..f][j'] == '.';
    assert EmailShape(e, i, i + 1 + j') by {
      forall k | 0 <= k < i + 1 + j' && k != i
        ensures e[k] != '@'
      {
        if k > i {
          assert e[k] == t[k - i - 1];
        }
      }
    }
  }

  /** The shape puts a `.` in the piece after the first `@`. */
  lemma ValidOfShape(e: string, i: int, j: int)
    requires EmailShape(e, i, j)
    ensures '@' in e && '.' in Split(e, '@')[1]
  {
    FindIs(e, '@', i);
    var i', t, f := SecondPiece(e);
    assert forall k :: 0 <= k < j - i - 1 ==> t[k] == e[k + i + 1];
    assert f >= j - i;
    assert t[..f][j - i - 1] == '.';
  }

  /**
   * `validate_email` holds exactly for a string whose trimmed lower case has
   * a first `@` followed, before any further `@`, by a `.`.
   */
  lemma ValidateEmailShape(email: Value)
    ensures ValidateEmail(email) <==>
      email.Str? && exists i, j :: EmailShape(LowerString(Strip(email.s)), i, j)
  {
    if email.Str? {
      var e := LowerString(Strip(email.s));
      if email.s == "" {
        assert Strip(email.s) == "";
      }
      if ValidateEmail(email) {
        ShapeOfValid(e);
      }
      if exists i, j :: EmailShape(e, i, j) {
        var i, j :| EmailShape(e, i, j);
        ValidOfShape(e, i, j);
      }
    }
  }

  // ---------------------------------------------------------------------------
  // Available paths

  /** The paths a region offers before the contact details are considered; unknown regions offer email. */
  function RegionDefaults(region: string): (r: seq<string>)
  {
    if region == "US" then ["SMS", "Email"]
    else if region == "EU" then ["Email"]
    else if region == "IN" then ["SMS"]
    else ["Email"]
  }

  /** `[y for y in xs if y != x]`. */
  function Without(xs: seq<string>, x: string): (r: seq<string>)
  {
    if xs == [] then []
    else (if xs[0] != x then [xs[0]] else []) + Without(xs[1..], x)
  }

  lemma {:induction false} WithoutMembers(xs: seq<string>, x: string)
    ensures forall y :: y in Without(xs, x) <==> y in xs && y != x
  {
    if xs != [] {
      WithoutMembers(xs[1..], x);
      assert xs == [xs[0]] + xs[1..];
    }
  }

  /** Python's `<` on strings: code point by code point, a proper prefix first. */
  predicate Below(a: string, b: string)
  {
    if a == [] then b != []
    else if b == [] then false
    else a[0] < b[0] || (a[0] == b[0] && Below(a[1..], b[1..]))
  }

  /** `sorted(set(xs))` for lists drawn from "Email" and "SMS". */
  function SortedNames(xs: seq<string>): (r: seq<string>)
  {
    (if "Email" in xs then ["Email"] else []) + (if "SMS" in xs then ["SMS"] else [])
  }

  /**
   * `check_available_paths`: the region's defaults, without SMS when there
   * is no phone number and without Email when there is no address, sorted
   * and without repeats. `hasPhone` and `hasEmail` are the truth of the
   * request's `phone` and `email` values.
   */
  method CheckAvailablePaths(hasPhone: bool, hasEmail: bool, region: string) returns (paths: seq<string>)
    ensures forall i, j :: 0 <= i < j < |paths| ==> Below(paths[i], paths[j])
    ensures forall p :: p in paths <==>
      p in RegionDefaults(region) && (p == "SMS" ==> hasPhone) && (p == "Email" ==> hasEmail)
    ensures forall p :: p in paths ==> p == "Email" || p == "SMS"
  {
    var available: seq<string> := [];
    available := available + RegionDefaults(region);
    if !hasPhone {
      WithoutMembers(available, "SMS");
      available := Without(available, "SMS");
    }
    if !hasEmail {
      WithoutMembers(available, "Email");
      available := Without(available, "Email");
    }
    assert Below("Email", "SMS");
    paths := SortedNames(available);
  }

  // ---------------------------------------------------------------------------
  // Conversations

  /**
   * A string field of a JSON record: absent, `null`, or a string. The
   * records `store_message` writes always hold the sender and recipient
   * keys, with `null` for a value the client left out.
   */
  datatype Field = Missing | Null | Text(s: string)

  /** `record.get(key)`: absent and `null` both read as `None`. */
  function Get(f: Field): (r: Option<string>)
    ensures r.Some? <==> f.Text?
  {
    if f.Text? then Some(f.s) else None
  }

  /** `record.get(key, default)`: only an absent key gives the default; a `null` reads as `None`. */
  function GetOr(f: Field, default: string): (r: Option<string>)
    ensures r.None? <==> f.Null?
    ensures f.Missing? ==> r == Some(default)
    ensures f.Text? ==> r == Some(f.s)
  {
    match f
    case Missing => Some(default)
    case Null => None
    case Text(s) => Some(s)
  }

  /**
   * A stored message, as far as these handlers read it. The last four
   * fields are the ones the handlers add; `Missing` there means not set.
   */
  datatype Message = Message(
    id: Option<string>,
    senderEmail: Field,
    recipientEmail: Field,
    senderId: Field,
    realText: Field,
    coverText: Field,
    imageData: Field,
    sentByCurrentUser: Option<bool>,
    realTextCopy: Field,
    coverTextCopy: Field,
    imageDataCopy: Field)

  /** What `.lower()` on `None` raises, which the conversation handler reports with status 500. */
  const NoneLowerError := "'NoneType' object has no attribute 'lower'"

  /** `record.get(key, "").lower()` succeeds: the value is not `null`. */
  predicate Lowerable(f: Field)
  {
    !f.Null?
  }

  /** Both addresses of a stored message can be lowered. */
  predicate Readable(m: Message)
  {
    Lowerable(m.senderEmail) && Lowerable(m.recipientEmail)
  }

  /** `record.get(key, "").lower()` on a field that is not `null`. */
  function Lowered(f: Field): (r: string)
    requires Lowerable(f)
    ensures f.Missing? ==> r == ""
    ensures f.Text? ==> r == LowerString(f.s)
  {
    if f.Text? then LowerString(f.s) else ""
  }

  /** The current user wrote the message to the partner, by address or from this device. */
  predicate CurrentToPartner(m: Message, current: string, partner: string, deviceId: Option<string>)
    requires Readable(m)
  {
    var sender := Lowered(m.senderEmail);
    var recipient := Lowered(m.recipientEmail);
    (sender == current && recipient == partner) || (GetOr(m.senderId, "") == deviceId && recipient == partner)
  }

  /** The partner wrote the message to the current user (both disjuncts of the source test it). */
  predicate PartnerToCurrent(m: Message, current: string, partner: string)
    requires Readable(m)
  {
    var sender := Lowered(m.senderEmail);
    var recipient := Lowered(m.recipientEmail);
    (sender == partner && recipient == current) || (recipient == current && sender == partner)
  }

  predicate InConversation(m: Message, current: string, partner: string, deviceId: Option<string>)
    requires Readable(m)
  {
    CurrentToPartner(m, current, partner, deviceId) || PartnerToCurrent(m, current, partner)
  }

  /**
   * The test the conversation loop applies to each stored message. A
   * message with a `null` address never reaches it: the loop has already
   * raised.
   */
  function ConversationTest(current: string, partner: string, deviceId: Option<string>): Message -> bool
  {
    (m: Message) => Readable(m) && InConversation(m, current, partner, deviceId)
  }

  /** The ownership test of the conversation handler: `get("sender_id", "") == device_id`. */
  function SentFromDevice(deviceId: Option<string>): Message -> bool
  {
    (m: Message) => GetOr(m.senderId, "") == deviceId
  }

  /** The test the `fetch_messages` loop applies: recent, and an id the client has not seen. */
  function UnseenTest(isRecent: Message -> bool, seenIds: set<Option<string>>): Message -> bool
  {
    (m: Message) => isRecent(m) && m.id !in seenIds
  }

  /** The messages that pass `keep`, in stored order. */
  function Kept(messages: seq<Message>, keep: Message -> bool): (r: seq<Message>)
  {
    if messages == [] then []
    else (if keep(messages[0]) then [messages[0]] else []) + Kept(messages[1..], keep)
  }

  /**
   * A message is kept exactly when it is stored and passes the test, and
   * each such message is kept as often as it is stored.
   */
  lemma {:induction false} KeptMembers(messages: seq<Message>, keep: Message -> bool)
    ensures forall m :: m in Kept(messages, keep) <==> m in messages && keep(m)
    ensures forall m :: keep(m) ==> multiset(Kept(messages, keep))[m] == multiset(messages)[m]
  {
    if messages != [] {
      KeptMembers(messages[1..], keep);
      assert messages == [messages[0]] + messages[1..];
    }
  }

  /** Stored order is kept: two stretches of messages are filtered one after the other. */
  lemma {:induction false} KeptAppend(a: seq<Message>, b: seq<Message>, keep: Message -> bool)
    ensures Kept(a + b, keep) == Kept(a, keep) + Kept(b, keep)
  {
    if a == [] {
      assert a + b == b;
    } else {
      var head := if keep(a[0]) then [a[0]] else [];
      assert Kept(a + b, keep) == head + Kept(a[1..] + b, keep) by {
        assert (a + b)[0] == a[0] && (a + b)[1..] == a[1..] + b;
      }
      KeptAppend(a[1..], b, keep);
      assert Kept(a, keep) == head + Kept(a[1..], keep);
      assert head + (Kept(a[1..], keep) + Kept(b, keep)) == (head + Kept(a[1..], keep)) + Kept(b, keep);
    }
  }

  lemma KeptStep(messages: seq<Message>, i: nat, keep: Message -> bool)
    requires i < |messages|
    ensures Kept(messages[i..], keep)
      == (if keep(messages[i]) then [messages[i]] else []) + Kept(messages[i + 1..], keep)
  {
    assert messages[i..][1..] == messages[i + 1..];
  }

  /** The selection loop of both fetch handlers: append each stored message that passes the test. */
  method Select(allMessages: seq<Message>, keep: Message -> bool) returns (selected: seq<Message>)
    ensures selected == Kept(allMessages, keep)
  {
    selected := [];
    var i := 0;
    while i < |allMessages|
      invariant i <= |allMessages|
      invariant selected + Kept(allMessages[i..], keep) == Kept(allMessages, keep)
    {
      var message := allMessages[i];
      KeptStep(allMessages, i, keep);
      if keep(message) {
        selected := selected + [message];
      }
      i := i + 1;
    }
    assert selected + [] == selected;
  }

  /** The second disjunct of the partner-to-current test repeats the first. */
  lemma PartnerToCurrentOnce(m: Message, current: string, partner: string)
    requires Readable(m)
    ensures PartnerToCurrent(m, current, partner) <==>
      Lowered(m.senderEmail) == partner && Lowered(m.recipientEmail) == current
  {
  }

  /**
   * A `null` sender id is `None`, which equals no device id the client
   * sends as a string: such a message is selected only by its addresses
   * and is never marked as the current user's.
   */
  lemma NullSenderId(m: Message, current: string, partner: string, deviceId: string)
    requires Readable(m) && m.senderId.Null?
    ensures CurrentToPartner(m, current, partner, Some(deviceId)) <==>
      Lowered(m.senderEmail) == current && Lowered(m.recipientEmail) == partner
    ensures !SentFromDevice(Some(deviceId))(m)
  {
  }

  /**
   * A message returned to the client: the ownership flag set, and the
   * stored text and cover text (when their keys are present) and image
   * (when it is a non-empty string) copied to the field names the iOS
   * client reads.
   */
  function Annotated(m: Message, sentByCurrentUser: bool): (r: Message)
  {
    m.(sentByCurrentUser := Some(sentByCurrentUser),
       realTextCopy := if !m.realText.Missing? then m.realText else m.realTextCopy,
       coverTextCopy := if !m.coverText.Missing? then m.coverText else m.coverTextCopy,
       imageDataCopy := if m.imageData.Text? && m.imageData.s != "" then m.imageData else m.imageDataCopy)
  }

  /** Annotation sets the flag, copies the present fields, and leaves the stored fields alone. */
  lemma AnnotatedFields(m: Message, flag: bool)
    ensures var r := Annotated(m, flag);
      r.sentByCurrentUser == Some(flag)
      && r.id == m.id && r.senderEmail == m.senderEmail && r.recipientEmail == m.recipientEmail
      && r.senderId == m.senderId && r.realText == m.realText && r.coverText == m.coverText
      && r.imageData == m.imageData
      && (!m.realText.Missing? ==> r.realTextCopy == m.realText)
      && (m.realText.Missing? ==> r.realTextCopy == m.realTextCopy)
      && (!m.coverText.Missing? ==> r.coverTextCopy == m.coverText)
      && (m.coverText.Missing? ==> r.coverTextCopy == m.coverTextCopy)
      && (m.imageData.Text? && m.imageData.s != "" ==> r.imageDataCopy == m.imageData)
      && (!m.imageData.Text? || m.imageData.s == "" ==> r.imageDataCopy == m.imageDataCopy)
  {
  }

  /**
   * The ownership loop of both fetch handlers: each message in turn gets
   * the flag `owned` gives it, in place.
   */
  method MarkOwnership(messages: seq<Message>, owned: Message -> bool) returns (marked: seq<Message>)
    ensures |marked| == |messages|
    ensures forall k :: 0 <= k < |marked| ==> marked[k] == Annotated(messages[k], owned(messages[k]))
  {
    marked := messages;
    var k := 0;
    while k < |marked|
      invariant k <= |marked| == |messages|
      invariant forall j :: 0 <= j < k ==> marked[j] == Annotated(messages[j], owned(messages[j]))
      invariant forall j :: k <= j < |marked| ==> marked[j] == messages[j]
    {
      var message := marked[k];
      marked := marked[k := Annotated(message, owned(message))];
      k := k + 1;
    }
  }

  /** Every stored message has addresses that can be lowered. */
  predicate AllReadable(messages: seq<Message>)
  {
    forall k :: 0 <= k < |messages| ==> Readable(messages[k])
  }

  /**
   * The selection loop of `fetch_conversation_messages`: append each
   * message of the conversation, and stop with the AttributeError of
   * `.lower()` at the first stored message with a `null` address.
   */
  method SelectConversation(allMessages: seq<Message>, current: string, partner: string, deviceId: Option<string>)
    returns (r: Result<seq<Message>>)
    ensures r.Failure? <==> !AllReadable(allMessages)
    ensures r.Failure? ==> r.error == NoneLowerError
    ensures r.Success? ==> r.value == Kept(allMessages, ConversationTest(current, partner, deviceId))
  {
    var keep := ConversationTest(current, partner, deviceId);
    var selected := [];
    var i := 0;
    while i < |allMessages|
      invariant i <= |allMessages|
      invariant forall j :: 0 <= j < i ==> Readable(allMessages[j])
      invariant selected + Kept(allMessages[i..], keep) == Kept(allMessages, keep)
    {
      var message := allMessages[i];
      if !Lowerable(message.senderEmail) || !Lowerable(message.recipientEmail) {
        return Failure(NoneLowerError);
      }
      KeptStep(allMessages, i, keep);
      if keep(message) {
        selected := selected + [message];
      }
      i := i + 1;
    }
    assert selected + [] == selected;
    return Success(selected);
  }

  /**
   * `fetch_conversation_messages` on the loaded messages: the requested
   * addresses are lowercased, the conversation selected, and each message
   * marked with whether its sender id (`""` when absent) is the device id
   * (`""` when absent). A `null` address, requested or stored, makes
   * `.lower()` raise, and the handler answers with the error and no
   * messages.
   */
  method FetchConversation(allMessages: seq<Message>, currentUserEmail: Field, chatPartnerEmail: Field, deviceId: Field)
    returns (r: Result<seq<Message>>)
    ensures r.Failure? <==>
      currentUserEmail.Null? || chatPartnerEmail.Null? || !AllReadable(allMessages)
    ensures r.Failure? ==> r.error == NoneLowerError
    ensures r.Success? ==>
      var selected := Kept(allMessages, ConversationTest(Lowered(currentUserEmail), Lowered(chatPartnerEmail), GetOr(deviceId, "")));
      |r.value| == |selected|
      && forall k :: 0 <= k < |r.value| ==>
        r.value[k] == Annotated(selected[k], GetOr(selected[k].senderId, "") == GetOr(deviceId, ""))
  {
    if !Lowerable(currentUserEmail) || !Lowerable(chatPartnerEmail) {
      return Failure(NoneLowerError);
    }
    var current := Lowered(currentUserEmail);
    var partner := Lowered(chatPartnerEmail);
    var device := GetOr(deviceId, "");
    var conversation := SelectConversation(allMessages, current, partner, device);
    if conversation.Failure? {
      return Failure(conversation.error);
    }
    var marked := MarkOwnership(conversation.value, SentFromDevice(device));
    return Success(marked);
  }

  /**
   * `fetch_messages` on the loaded messages: keep the recent, unseen ones,
   * then mark each with whether its sender id equals the device id, where
   * an absent or `null` sender id matches an absent or `null` device id.
   * `isRecent` stands for the timestamp test against ten minutes before
   * now, false when the timestamp does not parse.
   */
  method FetchMessages(allMessages: seq<Message>, deviceId: Option<string>, isRecent: Message -> bool,
                       seenIds: set<Option<string>>) returns (recent: seq<Message>)
    ensures var selected := Kept(allMessages, UnseenTest(isRecent, seenIds));
      |recent| == |selected|
      && forall k :: 0 <= k < |recent| ==> recent[k] == Annotated(selected[k], Get(selected[k].senderId) == deviceId)
  {
    recent := Select(allMessages, UnseenTest(isRecent, seenIds));
    recent := MarkOwnership(recent, (m: Message) => Get(m.senderId) == deviceId);
  }
}
