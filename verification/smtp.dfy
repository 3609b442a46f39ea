/**
 The SMTP test server: the store of received messages, the part tree of a message, its
 metadata, and the routing of part paths over HTTP.
 */
module Smtp {
  import opened Wrappers
  import Strconv

  // ---------- the part tree ----------

  /** A message or part as the MIME splitter delivers it; Unreadable stands for its errors. */
  datatype Raw = Unreadable | Plain(body: string) | Multipart(body: string, parts: seq<Raw>)

  datatype Content = Content(body: string, isMultipart: bool, multiparts: seq<Part>)

  datatype Part = Part(index: nat, content: Content)

  ghost predicate Readable(raw: Raw) {
    match raw
    case Unreadable => false
    case Plain(_) => true
    case Multipart(_, parts) => forall i :: 0 <= i < |parts| ==> Readable(parts[i])
  }

  /** The content tree has the shape of the raw one, with part i numbered i at every level. */
  ghost predicate Represents(c: Content, raw: Raw) {
    match raw
    case Unreadable => false
    case Plain(body) => c == Content(body, false, [])
    case Multipart(body, parts) =>
      && c.body == body && c.isMultipart && |c.multiparts| == |parts|
      && forall i :: 0 <= i < |parts| ==> c.multiparts[i].index == i && Represents(c.multiparts[i].content, parts[i])
  }

  method NewReceivedContent(raw: Raw) returns (content: Option<Content>)
    ensures content.Some? <==> Readable(raw)
    ensures content.Some? ==> Represents(content.value, raw)
    decreases raw
  {
    match raw {
      case Unreadable =>
        return None;
      case Plain(body) =>
        return Some(Content(body, false, []));
      case Multipart(body, parts) =>
        var multiparts: seq<Part> := [];
        for i := 0 to |parts|
          invariant |multiparts| == i
          invariant forall j :: 0 <= j < i ==>
            Readable(parts[j]) && multiparts[j].index == j && Represents(multiparts[j].content, parts[j])
        {
          var part := NewReceivedContent(parts[i]);
          if part.None? {
            return None;
          }
          multiparts := multiparts + [Part(i, part.value)];
        }
        return Some(Content(body, true, multiparts));
    }
  }

  // ---------- metadata ----------

  datatype Meta = Meta(idx: Option<nat>, bodySize: nat, isMultipart: bool, multiparts: seq<Meta>)

  function BuildContentMeta(c: Content): (m: Meta)
    ensures c.isMultipart ==> |m.multiparts| == |c.multiparts|
    decreases c, 1
  {
    Meta(None, |c.body|, c.isMultipart, if c.isMultipart then BuildMultipartIndex(c.multiparts) else [])
  }

  function BuildMultipartIndex(parts: seq<Part>): (ms: seq<Meta>)
    ensures |ms| == |parts|
    decreases parts
  {
    if parts == [] then []
    else BuildMultipartIndex(parts[..|parts| - 1]) + [BuildMultipartMeta(parts[|parts| - 1])]
  }

  function BuildMultipartMeta(part: Part): Meta
    decreases part
  {
    BuildContentMeta(part.content).(idx := Some(part.index))
  }

  // ---------- routing ----------

  datatype Answer =
    | BodyOf(content: Content)
    | IndexOf(parts: seq<Part>)
    | PartMeta(part: Part)
    | NotFound
    | BadRequest
    | Panic

  /** subrouteContentEndpoint; a negative index passes its range check and panics. */
  function Subroute(c: Content, path: seq<string>): Answer
    decreases |path|
  {
    if |path| == 1 && path[0] == "body" then BodyOf(c)
    else if |path| == 1 && path[0] == "multipart" then if c.isMultipart then IndexOf(c.multiparts) else NotFound
    else if |path| > 1 && path[0] == "multipart" then
      if !c.isMultipart then NotFound
      else
        match Strconv.ParseInt(path[1])
        case None => BadRequest
        case Some(partIdx) =>
          if partIdx >= |c.multiparts| then NotFound
          else if partIdx < 0 then Panic
          else if |path| == 2 then PartMeta(c.multiparts[partIdx])
          else Subroute(c.multiparts[partIdx].content, path[2..])
    else NotFound
  }

  /** The content after following the first n part indices of a path; None if one of the parts does not exist. */
  ghost function ContentAt(c: Content, path: seq<string>, n: nat): Option<Content> {
    if n == 0 then Some(c)
    else if |path| < 2 || path[0] != "multipart" || !c.isMultipart then None
    else
      match Strconv.ParseInt(path[1])
      case None => None
      case Some(i) => if 0 <= i < |c.multiparts| then ContentAt(c.multiparts[i].content, path[2..], n - 1) else None
  }

  /** After n existing parts the rest of the path asks for this answer. */
  ghost predicate AsksAt(c: Content, path: seq<string>, n: nat, answer: Answer) {
    && 2 * n < |path| && ContentAt(c, path, n).Some?
    && Asks(ContentAt(c, path, n).value, path[2 * n..], answer)
  }

  ghost predicate Asks(d: Content, rest: seq<string>, answer: Answer)
    requires rest != []
  {
    match answer
    case BodyOf(e) => rest == ["body"] && e == d
    case IndexOf(parts) => rest == ["multipart"] && d.isMultipart && parts == d.multiparts
    case PartMeta(part) => |rest| == 2 && IndexIn(d, rest) && exists i :: 0 <= i < |d.multiparts| &&
                                                                       Strconv.ParseInt(rest[1]) == Some(i) && part == d.multiparts[i]
    case BadRequest => IndexIn(d, rest) && Strconv.ParseInt(rest[1]).None?
    case Panic => IndexIn(d, rest) && Strconv.ParseInt(rest[1]).Some? && Strconv.ParseInt(rest[1]).value < 0
    case NotFound => false
  }

  /** The path goes on with an index into the parts of a multipart content. */
  ghost predicate IndexIn(d: Content, rest: seq<string>) {
    |rest| >= 2 && rest[0] == "multipart" && d.isMultipart
  }

  lemma AsksBelow(c: Content, path: seq<string>, i: nat, n: nat, answer: Answer)
    requires |path| > 2 && path[0] == "multipart" && c.isMultipart && i < |c.multiparts|
    requires Strconv.ParseInt(path[1]) == Some(i)
    ensures AsksAt(c, path, n + 1, answer) <==> AsksAt(c.multiparts[i].content, path[2..], n, answer)
  {
    if 2 * (n + 1) < |path| {
      assert path[2..][2 * n..] == path[2 * (n + 1)..];
    }
  }

  lemma AsksHere(c: Content, path: seq<string>, answer: Answer)
    ensures AsksAt(c, path, 0, answer) <==> path != [] && Asks(c, path, answer)
  {
    assert path[2 * 0..] == path;
  }

  /** Any answer but "not found" is given exactly to the paths that lead through existing parts and then ask for it. */
  lemma {:induction false} RouteIff(c: Content, path: seq<string>, answer: Answer)
    requires answer != NotFound
    ensures Subroute(c, path) == answer <==> exists n: nat :: AsksAt(c, path, n, answer)
    decreases |path|
  {
    assert |"body"| == 4 && |"multipart"| == 9;
    assert |path| == 1 ==> path == [path[0]];
    AsksHere(c, path, answer);
    if |path| > 2 && path[0] == "multipart" && c.isMultipart && InRange(c, path[1]) {
      var i := Strconv.ParseInt(path[1]).value;
      var part := c.multiparts[i].content;
      RouteIff(part, path[2..], answer);
      assert !AsksAt(c, path, 0, answer);
      assert Subroute(c, path) == Subroute(part, path[2..]);
      if n: nat :| AsksAt(c, path, n, answer) {
        AsksBelow(c, path, i, n - 1, answer);
        assert AsksAt(part, path[2..], n - 1, answer);
      }
      if n: nat :| AsksAt(part, path[2..], n, answer) {
        AsksBelow(c, path, i, n, answer);
        assert AsksAt(c, path, n + 1, answer);
      }
    } else {
      assert forall n: nat :: n > 0 ==> !AsksAt(c, path, n, answer);
    }
  }

  ghost predicate InRange(c: Content, index: string) {
    Strconv.ParseInt(index).Some? && 0 <= Strconv.ParseInt(index).value < |c.multiparts|
  }

  /** Routing panics exactly on a path that leads through existing parts to a negative index. */
  lemma PanicIff(c: Content, path: seq<string>)
    ensures Subroute(c, path) == Panic <==>
      exists n: nat, i: int ::
        && i < 0 && 2 * n + 1 < |path| && path[2 * n] == "multipart" && Strconv.ParseInt(path[2 * n + 1]) == Some(i)
        && ContentAt(c, path, n).Some? && ContentAt(c, path, n).value.isMultipart
  {
    RouteIff(c, path, Panic);
    if Subroute(c, path) == Panic {
      var n: nat :| AsksAt(c, path, n, Panic);
      assert path[2 * n..][0] == path[2 * n] && path[2 * n..][1] == path[2 * n + 1];
      assert Strconv.ParseInt(path[2 * n + 1]) == Some(Strconv.ParseInt(path[2 * n + 1]).value);
    }
    if n: nat, i: int :|
      && i < 0 && 2 * n + 1 < |path| && path[2 * n] == "multipart" && Strconv.ParseInt(path[2 * n + 1]) == Some(i)
      && ContentAt(c, path, n).Some? && ContentAt(c, path, n).value.isMultipart
    {
      assert path[2 * n..][0] == path[2 * n] && path[2 * n..][1] == path[2 * n + 1];
      assert AsksAt(c, path, n, Panic);
    }
  }

  /** The path that addresses part i0, then its part i1, and so on. */
  function PathTo(indices: seq<nat>): seq<string> {
    if indices == [] then [] else ["multipart", Strconv.Itoa(indices[0])] + PathTo(indices[1..])
  }

  /** The indices lead through existing parts of multipart contents. */
  ghost predicate Exists(c: Content, indices: seq<nat>)
    requires indices != []
    decreases |indices|
  {
    && c.isMultipart
    && indices[0] < |c.multiparts|
    && (|indices| > 1 ==> Exists(c.multiparts[indices[0]].content, indices[1..]))
  }

  ghost function PartAt(c: Content, indices: seq<nat>): Part
    requires indices != [] && Exists(c, indices)
    decreases |indices|
  {
    var part := c.multiparts[indices[0]];
    if |indices| == 1 then part else PartAt(part.content, indices[1..])
  }

  /** What the metadata of a content lists under these indices. */
  ghost function ListedAt(m: Meta, indices: seq<nat>): Option<Meta>
    requires indices != []
    decreases |indices|
  {
    if !m.isMultipart || indices[0] >= |m.multiparts| then None
    else if |indices| == 1 then Some(m.multiparts[indices[0]])
    else ListedAt(m.multiparts[indices[0]], indices[1..])
  }

  ghost predicate Addressable(indices: seq<nat>) {
    forall i :: 0 <= i < |indices| ==> indices[i] <= Strconv.MAX_INT64
  }

  lemma {:induction false} IndexEntry(parts: seq<Part>, i: nat)
    requires i < |parts|
    ensures BuildMultipartIndex(parts)[i] == BuildMultipartMeta(parts[i])
  {
    if i < |parts| - 1 {
      IndexEntry(parts[..|parts| - 1], i);
    }
  }

  lemma IdxDoesNotMatter(m: Meta, idx: Option<nat>, indices: seq<nat>)
    requires indices != []
    ensures ListedAt(m.(idx := idx), indices) == ListedAt(m, indices)
  {
  }

  /** Routing a part path answers with the part the metadata lists there, and is not found where it lists none. */
  lemma {:induction false} RouteMatchesMetadata(c: Content, indices: seq<nat>)
    requires indices != [] && Addressable(indices)
    ensures Exists(c, indices) <==> ListedAt(BuildContentMeta(c), indices).Some?
    ensures Subroute(c, PathTo(indices)) == if Exists(c, indices) then PartMeta(PartAt(c, indices)) else NotFound
    ensures Exists(c, indices) ==> ListedAt(BuildContentMeta(c), indices) == Some(BuildMultipartMeta(PartAt(c, indices)))
    decreases |indices|
  {
    var i := indices[0];
    var path := PathTo(indices);
    Strconv.ItoaRoundTrip(i);
    assert path[0] == "multipart" && path[1] == Strconv.Itoa(i);
    assert path[2..] == PathTo(indices[1..]);
    assert |indices| > 1 ==> |PathTo(indices[1..])| >= 2;
    if c.isMultipart && i < |c.multiparts| {
      var part := c.multiparts[i];
      IndexEntry(c.multiparts, i);
      if |indices| > 1 {
        RouteMatchesMetadata(part.content, indices[1..]);
        IdxDoesNotMatter(BuildContentMeta(part.content), Some(part.index), indices[1..]);
      }
    }
  }

  /** The content at a path of indices, the message itself for none. */
  ghost function ContentOf(c: Content, indices: seq<nat>): Option<Content> {
    if indices == [] then Some(c)
    else if Exists(c, indices) then Some(PartAt(c, indices).content)
    else None
  }

  /** Below every part path, `body` answers with the body there, and `multipart` with the parts if there are any to list. */
  lemma {:induction false} Endpoints(c: Content, indices: seq<nat>)
    requires Addressable(indices)
    ensures Subroute(c, PathTo(indices) + ["body"]) ==
      match ContentOf(c, indices) case Some(d) => BodyOf(d) case None => NotFound
    ensures Subroute(c, PathTo(indices) + ["multipart"]) ==
      match ContentOf(c, indices) case Some(d) => (if d.isMultipart then IndexOf(d.multiparts) else NotFound) case None => NotFound
    decreases |indices|
  {
    if indices == [] {
      assert PathTo(indices) + ["body"] == ["body"] && PathTo(indices) + ["multipart"] == ["multipart"];
      assert |"body"| == 4 && |"multipart"| == 9;
    } else {
      var i, rest := indices[0], PathTo(indices[1..]);
      Strconv.ItoaRoundTrip(i);
      forall last: string ensures (PathTo(indices) + [last])[2..] == rest + [last] {
        assert PathTo(indices) + [last] == ["multipart", Strconv.Itoa(i)] + (rest + [last]);
      }
      if c.isMultipart && i < |c.multiparts| {
        Endpoints(c.multiparts[i].content, indices[1..]);
      }
    }
  }

  /** What the metadata lists of a part: its number, the size of its body, and whether it has parts. */
  lemma ListedFields(c: Content, indices: seq<nat>)
    requires indices != [] && Addressable(indices) && Exists(c, indices)
    ensures var m, part := ListedAt(BuildContentMeta(c), indices), PartAt(c, indices);
      && m.Some? && m.value.idx == Some(part.index) && m.value.bodySize == |part.content.body|
      && m.value.isMultipart == part.content.isMultipart
  {
    RouteMatchesMetadata(c, indices);
  }

  /** In a content built from a readable message, the part found at a path carries the last index of the path. */
  lemma {:induction false} PartNumber(c: Content, raw: Raw, indices: seq<nat>)
    requires indices != [] && Represents(c, raw) && Exists(c, indices)
    ensures PartAt(c, indices).index == indices[|indices| - 1]
    decreases |indices|
  {
    if |indices| > 1 {
      PartNumber(c.multiparts[indices[0]].content, raw.parts[indices[0]], indices[1..]);
    }
  }

  // ---------- the message store ----------

  class Message {
    var index: int
    const content: Content

    constructor (index: int, content: Content)
      ensures this.index == index && this.content == content
    {
      this.index, this.content := index, content;
    }
  }

  datatype Lookup = Message(msg: Message) | NoMessage | Panics

  class Server {
    var receivedMessages: seq<Message>

    /** Message i carries index i, so no message occurs twice. */
    ghost predicate Valid()
      reads this, receivedMessages
    {
      forall i :: 0 <= i < |receivedMessages| ==> receivedMessages[i].index == i
    }

    constructor ()
      ensures Valid() && receivedMessages == []
    {
      receivedMessages := [];
    }

    /** Numbers the message and appends it; it must not be in the list already. */
    method AppendMessage(msg: Message)
      requires Valid() && msg !in receivedMessages
      modifies this, msg
      ensures Valid() && receivedMessages == old(receivedMessages) + [msg]
    {
      msg.index := |receivedMessages|;
      receivedMessages := receivedMessages + [msg];
    }

    /** A session's data: a message that cannot be parsed leaves the list as it is. */
    method Data(raw: Raw) returns (ok: bool)
      requires Valid()
      modifies this
      ensures Valid() && ok == Readable(raw)
      ensures !ok ==> receivedMessages == old(receivedMessages)
      ensures ok ==>
        && |receivedMessages| == |old(receivedMessages)| + 1
        && receivedMessages[..|old(receivedMessages)|] == old(receivedMessages)
        && fresh(receivedMessages[|old(receivedMessages)|])
        && Represents(receivedMessages[|old(receivedMessages)|].content, raw)
    {
      var content := NewReceivedContent(raw);
      if content.None? {
        return false;
      }
      var msg := new Message(|receivedMessages|, content.value);
      receivedMessages := receivedMessages + [msg];
      return true;
    }

    /** The message that carries this number; a negative one passes the range check and panics. */
    method ReceivedMessage(idx: int) returns (found: Lookup)
      requires Valid()
      ensures found.Panics? <==> idx < 0
      ensures found.Message? ==> found.msg in receivedMessages && found.msg.index == idx
      ensures found.NoMessage? ==> forall m :: m in receivedMessages ==> m.index != idx
    {
      if idx >= |receivedMessages| {
        return NoMessage;
      }
      if idx < 0 {
        return Panics;
      }
      return Lookup.Message(receivedMessages[idx]);
    }

    /** A copy: later appends do not show in it. */
    method ReceivedMessages() returns (view: seq<Message>)
      ensures view == receivedMessages
    {
      view := receivedMessages;
    }
  }

  /** A message comes in over SMTP, or is posted over HTTP and appended; each holds the lock. */
  datatype Delivery = Delivered(raw: Raw) | Posted(raw: Raw)

  ghost predicate Growing(snapshots: seq<seq<Message>>) {
    forall i, j :: 0 <= i < j < |snapshots| ==> snapshots[i] <= snapshots[j]
  }

  /** A readable message is appended, and nothing else happens. */
  ghost predicate Takes(before: seq<Message>, after: seq<Message>, raw: Raw) {
    if Readable(raw)
    then |after| == |before| + 1 && after[..|before|] == before && Represents(after[|before|].content, raw)
    else after == before
  }

  /**
   Any interleaving of deliveries: each appends its message, however it comes, each snapshot is a prefix
   of every later one, and message i stays number i.
   */
  method Receive(server: Server, deliveries: seq<Delivery>) returns (snapshots: seq<seq<Message>>)
    requires server.Valid()
    modifies server
    ensures server.Valid() && |snapshots| == |deliveries| + 1
    ensures snapshots[0] == old(server.receivedMessages) && snapshots[|deliveries|] == server.receivedMessages
    ensures forall i :: 0 <= i < |deliveries| ==> Takes(snapshots[i], snapshots[i + 1], deliveries[i].raw)
    ensures Growing(snapshots)
  {
    var first := server.ReceivedMessages();
    snapshots := [first];
    for i := 0 to |deliveries|
      invariant server.Valid() && |snapshots| == i + 1 && Growing(snapshots)
      invariant snapshots[0] == old(server.receivedMessages) && snapshots[i] == server.receivedMessages
      invariant forall j :: 0 <= j < i ==> Takes(snapshots[j], snapshots[j + 1], deliveries[j].raw)
    {
      match deliveries[i] {
        case Delivered(raw) =>
          var ok := server.Data(raw);
        case Posted(raw) =>
          var content := NewReceivedContent(raw);
          if content.Some? {
            var msg := new Message(0, content.value);
            server.AppendMessage(msg);
          }
      }
      var next := server.ReceivedMessages();
      snapshots := snapshots + [next];
    }
  }
}
