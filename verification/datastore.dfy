/**
 The datastore: values under keys, with `key[]` pushing to a list and `key[sub]` setting a
 map entry, and the list of responses under integer indexes.
 */
module DatastoreModel {
  import opened Wrappers
  import opened MapOrders
  import Strconv

  datatype Value =
    | Nil
    | Scalar(text: string)
    | Number(digits: string)
    | Int(i: int)
    | Float(x: real)
    | List(items: seq<Value>)
    | Dict(entries: map<string, Value>)

  type Storage = map<string, Value>

  const EMPTY_TEXT := Scalar("")

  // ---------- index notation ----------

  predicate IsPush(index: string) {
    |index| >= 2 && index[|index| - 2..] == "[]"
  }

  function FindBracket(s: string, from: nat): (p: nat)
    requires from <= |s|
    ensures from <= p <= |s| && (p < |s| ==> s[p] == '[')
    ensures forall i :: from <= i < p ==> s[i] != '['
    decreases |s| - from
  {
    if from == |s| || s[from] == '[' then from else FindBracket(s, from + 1)
  }

  /** The groups of `^(.*?)\[(.+?)\]$`; a dot matches no newline. */
  function SplitIndex(index: string): Option<(string, string)> {
    var n := |index|;
    var p := FindBracket(index, 0);
    if n > 0 && index[n - 1] == ']' && p + 2 < n && '\n' !in index
    then Some((index[..p], index[p + 1..n - 1]))
    else None
  }

  /** What an index addresses when it is written to. */
  datatype Target = Push(key: string) | Entry(key: string, sub: string) | Whole(key: string)

  function Parse(index: string): Target {
    if IsPush(index) then Push(index[..|index| - 2])
    else
      match SplitIndex(index)
      case Some((base, sub)) => Entry(base, sub)
      case None => Whole(index)
  }

  predicate PlainKey(k: string) {
    '[' !in k && '\n' !in k
  }

  /** A sub key that `k[x]` addresses; one ending in an opening bracket would make it a push. */
  predicate PlainSub(x: string) {
    x != "" && '\n' !in x && x[|x| - 1] != '['
  }

  function PushIndex(k: string): string {
    k + "[]"
  }

  function SubIndex(k: string, x: string): string {
    k + "[" + x + "]"
  }

  lemma ParseEntry(k: string, x: string)
    requires PlainKey(k) && PlainSub(x)
    ensures Parse(SubIndex(k, x)) == Entry(k, x) && SplitIndex(SubIndex(k, x)) == Some((k, x))
  {
    var index := SubIndex(k, x);
    assert index[|k|] == '[' && index[|index| - 1] == ']';
    assert forall i :: 0 <= i < |k| ==> index[i] == k[i] && k[i] in k;
    assert index[|index| - 2..][0] == index[|index| - 2] == x[|x| - 1];
    assert FindBracket(index, 0) == |k|;
    assert index[..|k|] == k && index[|k| + 1..|index| - 1] == x;
    assert '\n' !in index;
  }

  function IndexOf(target: Target): string {
    match target
    case Push(k) => PushIndex(k)
    case Entry(k, x) => SubIndex(k, x)
    case Whole(k) => k
  }

  /** The index can be told from what it addresses. */
  lemma IndexOfParse(index: string)
    ensures IndexOf(Parse(index)) == index
  {
    if IsPush(index) {
      assert index == index[..|index| - 2] + "[]";
    } else {
      match SplitIndex(index) {
        case Some((k, x)) => assert index == k + "[" + x + "]";
        case None =>
      }
    }
  }

  /** Which indexes push to a key, set its entry x, or replace it. */
  lemma IndexNotation(index: string, k: string, x: string)
    requires PlainKey(k)
    ensures Parse(index) == Push(k) <==> index == PushIndex(k)
    ensures Parse(index) == Entry(k, x) <==> index == SubIndex(k, x) && PlainSub(x)
    ensures Parse(index) == Whole(k) <==> index == k
  {
    IndexOfParse(index);
    if Parse(index) == Entry(k, x) {
      SubIsPlain(index, k, x);
    }
    if index == SubIndex(k, x) && PlainSub(x) {
      ParseEntry(k, x);
    }
    if index == k && |k| >= 2 {
      assert k[|k| - 2] in k && k[|k| - 2..][0] == k[|k| - 2];
    }
  }

  lemma SubIsPlain(index: string, k: string, x: string)
    requires Parse(index) == Entry(k, x)
    ensures PlainSub(x)
  {
    var n, p := |index|, FindBracket(index, 0);
    assert x == index[p + 1..n - 1] && p + 2 < n && index[n - 1] == ']';
    assert x[|x| - 1] == index[n - 2];
    assert index[n - 2..] == [index[n - 2], ']'];
    assert forall c :: c in x ==> c in index;
  }

  // ---------- writing ----------

  /** What is stored for a value: numbers become integers or floats where they can. */
  function Stored(value: Value, floatOf: string -> Option<real>): Value {
    match value
    case Float(x) => if x == x.Floor as real then Int(x.Floor) else value
    case Number(digits) =>
      (match Strconv.ParseInt(digits)
       case Some(n) => Int(n)
       case None => if floatOf(digits).Some? then Float(floatOf(digits).value) else value)
    case _ => value
  }

  /** A value read back and stored again stays as it is, but for a number such as 1e3 that is no integer text. */
  lemma StoredTwiceIff(value: Value, floatOf: string -> Option<real>)
    ensures Stored(Stored(value, floatOf), floatOf) == Stored(value, floatOf) <==>
      !(value.Number? && Strconv.ParseInt(value.digits).None? && floatOf(value.digits).Some?
        && floatOf(value.digits).value == floatOf(value.digits).value.Floor as real)
  {
  }

  ghost function ItemsOf(storage: Storage, k: string): seq<Value> {
    if k in storage && storage[k].List? then storage[k].items else []
  }

  ghost function EntriesOf(storage: Storage, k: string): map<string, Value> {
    if k in storage && storage[k].Dict? then storage[k].entries else map[]
  }

  /** The storage after one Set: a push or a sub key replaces a value of another kind. */
  ghost function Put(storage: Storage, target: Target, value: Value): Storage {
    match target
    case Push(k) => storage[k := List(ItemsOf(storage, k) + [value])]
    case Entry(k, sub) => storage[k := Dict(EntriesOf(storage, k)[sub := value])]
    case Whole(k) => storage[k := value]
  }

  // ---------- reading ----------

  datatype Reading = Found(value: Value) | KeyNotFound | IndexOutOfBounds | NotAnIndex

  function ReadItem(items: seq<Value>, sub: string): Reading {
    match Strconv.ParseInt(sub)
    case None => NotAnIndex
    case Some(i) =>
      var at := if i < 0 then |items| + i else i;
      if 0 <= at < |items| then Found(items[at]) else Found(EMPTY_TEXT)
  }

  function Read(storage: Storage, responses: seq<string>, index: string): Reading {
    if index == "-" then Found(Dict(storage))
    else
      match SplitIndex(index)
      case Some((base, sub)) =>
        if base !in storage then KeyNotFound
        else
          (match storage[base]
           case Dict(entries) => Found(if sub in entries then entries[sub] else EMPTY_TEXT)
           case List(items) => ReadItem(items, sub)
           case _ => Found(EMPTY_TEXT))
      case None =>
        match Strconv.ParseInt(index)
        case Some(i) =>
          var at := if i < 0 then i + |responses| else i;
          if 0 <= at < |responses| then Found(Scalar(responses[at])) else IndexOutOfBounds
        case None => Found(if index in storage then storage[index] else EMPTY_TEXT)
  }

  // ---------- histories ----------

  /** A Set call, its index parsed. */
  datatype Write = Write(target: Target, value: Value)

  ghost function Replay(start: Storage, history: seq<Write>): Storage {
    if history == [] then start
    else
      var last := history[|history| - 1];
      Put(Replay(start, history[..|history| - 1]), last.target, last.value)
  }

  ghost predicate SameAt(a: Storage, b: Storage, k: string) {
    (k in a <==> k in b) && (k in a ==> a[k] == b[k])
  }

  /** The writes to key k, in order. */
  ghost function Touching(history: seq<Write>, k: string): seq<Write> {
    if history == [] then []
    else
      var front, last := Touching(history[..|history| - 1], k), history[|history| - 1];
      if last.target.key == k then front + [last] else front
  }

  /** The value under a key is decided by the writes to that key alone. */
  lemma {:induction false} ReplayLocal(start: Storage, history: seq<Write>, k: string)
    ensures SameAt(Replay(start, history), Replay(start, Touching(history, k)), k)
  {
    if history != [] {
      var front, last := history[..|history| - 1], history[|history| - 1];
      ReplayLocal(start, front, k);
      if last.target.key == k {
        var t := Touching(front, k);
        assert (t + [last])[..|t|] == t;
      }
    }
  }

  // ---------- list keys ----------

  /** Every write to k pushes to it or replaces it by a list. */
  ghost predicate ListWrites(history: seq<Write>, k: string) {
    forall i :: 0 <= i < |history| && history[i].target.key == k ==>
      history[i].target.Push? || (history[i].target.Whole? && history[i].value.List?)
  }

  /** The values pushed since the last whole-key write, after the list written then. */
  ghost function Pushed(start: seq<Value>, history: seq<Write>, k: string): seq<Value> {
    if history == [] then start
    else
      var front, last := history[..|history| - 1], history[|history| - 1];
      if last.target == Whole(k) && last.value.List? then last.value.items
      else if last.target == Push(k) then Pushed(start, front, k) + [last.value]
      else Pushed(start, front, k)
  }

  lemma {:induction false} ListHistory(start: Storage, history: seq<Write>, k: string)
    requires (k in start ==> start[k].List?) && ListWrites(history, k)
    ensures var after := Replay(start, history);
      && (k in after ==> after[k] == List(Pushed(ItemsOf(start, k), history, k)))
      && (k !in after ==> Pushed(ItemsOf(start, k), history, k) == [])
      && (k in after <==> k in start || Touching(history, k) != [])
  {
    if history != [] {
      ListHistory(start, history[..|history| - 1], k);
    }
  }

  /** A sub key reads what the base key holds. */
  lemma ReadSub(storage: Storage, responses: seq<string>, k: string, x: string)
    requires PlainKey(k) && PlainSub(x)
    ensures Read(storage, responses, SubIndex(k, x)) ==
      if k !in storage then KeyNotFound
      else if storage[k].Dict? then Found(if x in storage[k].entries then storage[k].entries[x] else EMPTY_TEXT)
      else if storage[k].List? then ReadItem(storage[k].items, x)
      else Found(EMPTY_TEXT)
  {
    ParseEntry(k, x);
    assert |SubIndex(k, x)| > 1;
  }

  lemma ItoaIsPlain(i: int)
    ensures PlainSub(Strconv.Itoa(i))
  {
    var sub := Strconv.Itoa(i);
    assert forall j :: 0 <= j < |sub| ==> Strconv.IsDigit(sub[j]) || sub[j] == '-';
  }

  lemma ReadListItem(storage: Storage, responses: seq<string>, k: string, i: int)
    requires PlainKey(k) && (k in storage ==> storage[k].List?)
    requires Strconv.MIN_INT64 <= i <= Strconv.MAX_INT64
    ensures var items := ItemsOf(storage, k);
      Read(storage, responses, SubIndex(k, Strconv.Itoa(i))) ==
        if k !in storage then KeyNotFound
        else if 0 <= i < |items| then Found(items[i])
        else if -|items| <= i < 0 then Found(items[|items| + i])
        else Found(EMPTY_TEXT)
  {
    ItoaIsPlain(i);
    ReadSub(storage, responses, k, Strconv.Itoa(i));
    Strconv.ItoaRoundTrip(i);
  }

  /**
   After any history of pushes and whole-list writes, k[i] is the i-th value pushed, k[-i]
   the i-th from the back, and anything out of range the empty text without an error. Only
   a key never written is an error.
   */
  lemma ListReads(start: Storage, history: seq<Write>, responses: seq<string>, k: string, i: int)
    requires PlainKey(k) && (k in start ==> start[k].List?) && ListWrites(history, k)
    requires Strconv.MIN_INT64 <= i <= Strconv.MAX_INT64
    ensures var pushed := Pushed(ItemsOf(start, k), history, k);
      Read(Replay(start, history), responses, SubIndex(k, Strconv.Itoa(i))) ==
        if k !in start && Touching(history, k) == [] then KeyNotFound
        else if 0 <= i < |pushed| then Found(pushed[i])
        else if -|pushed| <= i < 0 then Found(pushed[|pushed| + i])
        else Found(EMPTY_TEXT)
  {
    ListHistory(start, history, k);
    ReadListItem(Replay(start, history), responses, k, i);
  }

  /** The values a push should keep: the items of a list, or a single other value; null is nothing. */
  ghost function Held(storage: Storage, k: string): seq<Value> {
    if k !in storage || storage[k].Nil? then []
    else if storage[k].List? then storage[k].items
    else [storage[k]]
  }

  /** A push keeps what the key held exactly when the key was absent, null, or a list: other values are dropped. */
  lemma PushKeepsIff(storage: Storage, k: string, value: Value)
    ensures Put(storage, Push(k), value)[k] == List(Held(storage, k) + [value]) <==>
      k !in storage || storage[k].Nil? || storage[k].List?
  {
    var items := Put(storage, Push(k), value)[k].items;
    if Held(storage, k) != [] && !storage[k].List? {
      assert |items| == 1 && |Held(storage, k) + [value]| == 2;
    }
  }

  // ---------- map keys ----------

  /** Every write to m sets an entry or replaces it by a map. */
  ghost predicate MapWrites(history: seq<Write>, m: string) {
    forall i :: 0 <= i < |history| && history[i].target.key == m ==>
      history[i].target.Entry? || (history[i].target.Whole? && history[i].value.Dict?)
  }

  /** The last value set for x, looking back no further than the last replacement of m. */
  ghost function LastSet(start: map<string, Value>, history: seq<Write>, m: string, x: string): Option<Value> {
    if history == [] then if x in start then Some(start[x]) else None
    else
      var front, last := history[..|history| - 1], history[|history| - 1];
      if last.target == Entry(m, x) then Some(last.value)
      else if last.target == Whole(m) && last.value.Dict? then
        if x in last.value.entries then Some(last.value.entries[x]) else None
      else LastSet(start, front, m, x)
  }

  lemma {:induction false} MapHistory(start: Storage, history: seq<Write>, m: string, x: string)
    requires MapWrites(history, m)
    ensures var after, last := Replay(start, history), LastSet(EntriesOf(start, m), history, m, x);
      && (Touching(history, m) == [] ==> SameAt(after, start, m))
      && (Touching(history, m) != [] ==> m in after && after[m].Dict?)
      && (x in EntriesOf(after, m) <==> last.Some?)
      && (last.Some? ==> EntriesOf(after, m)[x] == last.value)
  {
    if history != [] {
      MapHistory(start, history[..|history| - 1], m, x);
    }
  }

  /** After any history of entry and whole-map writes, m[x] is the last value set for x. */
  lemma MapReads(start: Storage, history: seq<Write>, responses: seq<string>, m: string, x: string)
    requires PlainKey(m) && PlainSub(x) && (m in start ==> start[m].Dict?) && MapWrites(history, m)
    ensures var last := LastSet(EntriesOf(start, m), history, m, x);
      Read(Replay(start, history), responses, SubIndex(m, x)) ==
        if m !in start && Touching(history, m) == [] then KeyNotFound
        else Found(if last.Some? then last.value else EMPTY_TEXT)
  {
    MapHistory(start, history, m, x);
    ReadSub(Replay(start, history), responses, m, x);
  }

  // ---------- reading by the write that counts ----------

  /** A key that is read as it stands: no list or map notation, not the whole store, no response index. */
  predicate PlainIndex(k: string) {
    PlainKey(k) && k != "-" && Strconv.ParseInt(k) == None
  }

  lemma ReadPlain(storage: Storage, responses: seq<string>, k: string)
    requires PlainIndex(k)
    ensures Read(storage, responses, k) == Found(if k in storage then storage[k] else Scalar(""))
  {
    IndexNotation(k, k, "");
    assert SplitIndex(k) == None;
  }

  lemma {:induction false} HeldSince(start: Storage, history: seq<Write>, at: nat, k: string)
    requires at < |history| && history[at].target == Whole(k)
    requires forall j :: at < j < |history| ==> history[j].target.key != k
    ensures var after := Replay(start, history); k in after && after[k] == history[at].value
  {
    if at < |history| - 1 {
      HeldSince(start, history[..|history| - 1], at, k);
    }
  }

  /** The value last written to a key as a whole is read, if nothing has touched the key since. */
  lemma WholeReads(start: Storage, history: seq<Write>, responses: seq<string>, at: nat, k: string)
    requires PlainIndex(k) && at < |history| && history[at].target == Whole(k)
    requires forall j :: at < j < |history| ==> history[j].target.key != k
    ensures Read(Replay(start, history), responses, k) == Found(history[at].value)
  {
    HeldSince(start, history, at, k);
    ReadPlain(Replay(start, history), responses, k);
  }

  /** A key never written is the empty text. */
  lemma UnwrittenReads(history: seq<Write>, responses: seq<string>, k: string)
    requires PlainIndex(k) && forall j :: 0 <= j < |history| ==> history[j].target.key != k
    ensures Read(Replay(map[], history), responses, k) == Found(Scalar(""))
  {
    NotWritten(map[], history, k);
    ReadPlain(Replay(map[], history), responses, k);
  }

  /** A list key reads as the list of the values pushed. */
  lemma WholeListReads(start: Storage, history: seq<Write>, responses: seq<string>, k: string)
    requires PlainIndex(k) && (k in start ==> start[k].List?) && ListWrites(history, k)
    requires k in start || Touching(history, k) != []
    ensures Read(Replay(start, history), responses, k) == Found(List(Pushed(ItemsOf(start, k), history, k)))
  {
    ListHistory(start, history, k);
    ReadPlain(Replay(start, history), responses, k);
  }

  /** A map key reads as the map of the values last set. */
  lemma WholeMapReads(start: Storage, history: seq<Write>, responses: seq<string>, m: string, x: string)
    requires PlainIndex(m) && MapWrites(history, m) && Touching(history, m) != []
    ensures var reading, last := Read(Replay(start, history), responses, m), LastSet(EntriesOf(start, m), history, m, x);
      && reading.Found? && reading.value.Dict?
      && (x in reading.value.entries <==> last.Some?)
      && (last.Some? ==> reading.value.entries[x] == last.value)
  {
    MapHistory(start, history, m, x);
    ReadPlain(Replay(start, history), responses, m);
  }

  lemma {:induction false} EntryHeldSince(start: Storage, history: seq<Write>, at: nat, m: string, x: string)
    requires at < |history| && history[at].target == Entry(m, x)
    requires forall j :: at < j < |history| && history[j].target.key == m ==>
      history[j].target.Entry? && history[j].target.sub != x
    ensures var after := Replay(start, history);
      m in after && after[m].Dict? && x in after[m].entries && after[m].entries[x] == history[at].value
  {
    if at < |history| - 1 {
      EntryHeldSince(start, history[..|history| - 1], at, m, x);
    }
  }

  /** The value last set for a sub key is read, if only other sub keys have been set since. */
  lemma EntryReads(start: Storage, history: seq<Write>, responses: seq<string>, at: nat, m: string, x: string)
    requires PlainKey(m) && PlainSub(x) && at < |history| && history[at].target == Entry(m, x)
    requires forall j :: at < j < |history| && history[j].target.key == m ==>
      history[j].target.Entry? && history[j].target.sub != x
    ensures Read(Replay(start, history), responses, SubIndex(m, x)) == Found(history[at].value)
  {
    EntryHeldSince(start, history, at, m, x);
    ReadSub(Replay(start, history), responses, m, x);
  }

  /** Writes to other keys do not count. */
  lemma {:induction false} PushedLocal(start: seq<Value>, history: seq<Write>, k: string)
    ensures Pushed(start, history, k) == Pushed(start, Touching(history, k), k)
  {
    if history != [] {
      var front, last := history[..|history| - 1], history[|history| - 1];
      PushedLocal(start, front, k);
      if last.target.key == k {
        var t := Touching(front, k);
        assert (t + [last])[..|t|] == t;
      }
    }
  }

  lemma WithoutLast(before: seq<Write>, after: seq<Write>)
    requires after != []
    ensures (before + after)[..|before + after| - 1] == before + after[..|after| - 1]
    ensures (before + after)[|before + after| - 1] == after[|after| - 1]
  {
  }

  /** Values pushed one after the other stand in this order after what was pushed before. */
  lemma {:induction false} PushedInOrder(start: seq<Value>, before: seq<Write>, pushes: seq<Write>, k: string)
    requires forall i :: 0 <= i < |pushes| ==> pushes[i].target == Push(k)
    ensures var first, all := Pushed(start, before, k), Pushed(start, before + pushes, k);
      && |all| == |first| + |pushes| && all[..|first|] == first
      && forall i :: 0 <= i < |pushes| ==> all[|first| + i] == pushes[i].value
  {
    if pushes == [] {
      assert before + pushes == before;
    } else {
      var n := |pushes| - 1;
      PushedInOrder(start, before, pushes[..n], k);
      WithoutLast(before, pushes);
    }
  }

  /** "-" reads all keys and values. */
  lemma AllReads(storage: Storage, responses: seq<string>)
    ensures Read(storage, responses, "-") == Found(Dict(storage))
  {
  }

  /** A sub key of what has no such entry reads as the empty text, but the key must be there and a list wants an integer. */
  lemma OtherReads(storage: Storage, responses: seq<string>, k: string, x: string)
    requires PlainKey(k) && PlainSub(x)
    ensures k !in storage ==> Read(storage, responses, SubIndex(k, x)) == KeyNotFound
    ensures k in storage && storage[k].Dict? && x !in storage[k].entries ==>
      Read(storage, responses, SubIndex(k, x)) == Found(Scalar(""))
    ensures k in storage && !storage[k].Dict? && !storage[k].List? ==>
      Read(storage, responses, SubIndex(k, x)) == Found(Scalar(""))
    ensures k in storage && storage[k].List? && Strconv.ParseInt(x) == None ==>
      Read(storage, responses, SubIndex(k, x)) == NotAnIndex
  {
    ReadSub(storage, responses, k, x);
  }

  // ---------- the response list ----------

  /** A written integer reads the response list, from the back if negative, and is an error out of range. */
  lemma ResponseReads(storage: Storage, responses: seq<string>, i: int)
    requires Strconv.MIN_INT64 <= i <= Strconv.MAX_INT64
    ensures Read(storage, responses, Strconv.Itoa(i)) ==
      if 0 <= i < |responses| then Found(Scalar(responses[i]))
      else if -|responses| <= i < 0 then Found(Scalar(responses[|responses| + i]))
      else IndexOutOfBounds
  {
    var index := Strconv.Itoa(i);
    Strconv.ItoaRoundTrip(i);
    assert Strconv.ParseInt("-") == None;
    assert index[|index| - 1] != ']';
  }

  // ---------- the store itself ----------

  class Datastore {
    var storage: Storage
    var responseJson: seq<string>

    /** The float a number text stands for. */
    const floatOf: string -> Option<real>

    constructor (floatOf: string -> Option<real>)
      ensures storage == map[] && responseJson == [] && this.floatOf == floatOf
    {
      storage, responseJson := map[], [];
      this.floatOf := floatOf;
    }

    method Set(index: string, newValue: Value)
      modifies this`storage
      ensures storage == Put(old(storage), Parse(index), Stored(newValue, floatOf))
      ensures !newValue.Number? && !newValue.Float? ==> storage == Put(old(storage), Parse(index), newValue)
      ensures forall n: int :: newValue == Float(n as real) ==> storage == Put(old(storage), Parse(index), Int(n))
      ensures newValue.Float? && newValue.x.Floor as real != newValue.x ==>
        storage == Put(old(storage), Parse(index), newValue)
      ensures newValue.Number? ==>
        storage == Put(old(storage), Parse(index),
          match Strconv.ParseInt(newValue.digits)
          case Some(n) => Int(n)
          case None => if floatOf(newValue.digits).Some? then Float(floatOf(newValue.digits).value) else newValue)
    {
      var value := Stored(newValue, floatOf);
      if IsPush(index) {
        var base := index[..|index| - 2];
        if base !in storage {
          storage := storage[base := List([])];
        }
        var s := [];
        match storage[base] {
          case List(items) => s := items;
          case tmp => storage := storage[base := List(if tmp.Nil? then [] else [tmp])];
        }
        storage := storage[base := List(s + [value])];
      } else {
        match SplitIndex(index) {
          case Some((base, sub)) =>
            if base !in storage || !storage[base].Dict? {
              storage := storage[base := Dict(map[])];
            }
            storage := storage[base := Dict(storage[base].entries[sub := value])];
          case None =>
            storage := storage[index := value];
        }
      }
    }

    method Get(index: string) returns (res: Reading)
      ensures res == Read(storage, responseJson, index)
    {
      if index == "-" {
        return Found(Dict(storage));
      }
      var rego := SplitIndex(index);
      if rego.Some? {
        var (useIndex, mapIndex) := rego.value;
        if useIndex !in storage {
          return KeyNotFound;
        }
        match storage[useIndex] {
          case Dict(entries) =>
            if mapIndex in entries {
              return Found(entries[mapIndex]);
            }
          case List(items) =>
            var sliceIdx := Strconv.ParseInt(mapIndex);
            if sliceIdx.None? {
              return NotAnIndex;
            }
            var i := if sliceIdx.value < 0 then |items| + sliceIdx.value else sliceIdx.value;
            if 0 <= i < |items| {
              return Found(items[i]);
            }
          case _ =>
        }
      } else {
        var idx := Strconv.ParseInt(index);
        if idx.Some? {
          var i := if idx.value < 0 then idx.value + |responseJson| else idx.value;
          if i >= |responseJson| || i < 0 {
            return IndexOutOfBounds;
          }
          return Found(Scalar(responseJson[i]));
        }
        if index in storage {
          return Found(storage[index]);
        }
      }
      return Found(EMPTY_TEXT);
    }

    method AppendResponse(s: string)
      modifies this`responseJson
      ensures responseJson == old(responseJson) + [s]
    {
      responseJson := responseJson + [s];
    }

    /** Panics on an empty list. */
    method UpdateLastResponse(s: string)
      requires responseJson != []
      modifies this`responseJson
      ensures responseJson == old(responseJson)[|old(responseJson)| - 1 := s]
    {
      responseJson := responseJson[|responseJson| - 1 := s];
    }

    /** Sets the entries one by one, in the arbitrary order of the Go map. */
    method SetMap(smap: map<string, Value>) returns (ghost order: seq<string>)
      modifies this`storage
      ensures IsOrder(order, smap.Keys)
      ensures storage == Replay(old(storage), Writes(smap, order, floatOf))
    {
      var pending := smap.Keys;
      order := [];
      while pending != {}
        invariant pending <= smap.Keys && IsOrder(order, smap.Keys - pending)
        invariant storage == Replay(old(storage), Writes(smap, order, floatOf))
        decreases |pending|
      {
        var k :| k in pending;
        Set(k, smap[k]);
        WritesAppend(smap, order, k, floatOf);
        pending, order := pending - {k}, order + [k];
      }
    }
  }

  /** What the Set calls for the entries of a map write, in this order. */
  ghost function Writes(smap: map<string, Value>, order: seq<string>, floatOf: string -> Option<real>): (ws: seq<Write>)
    requires forall k :: k in order ==> k in smap
    ensures |ws| == |order|
  {
    seq(|order|, i requires 0 <= i < |order| => Write(Parse(order[i]), Stored(smap[order[i]], floatOf)))
  }

  lemma WritesAppend(smap: map<string, Value>, order: seq<string>, k: string, floatOf: string -> Option<real>)
    requires (forall q :: q in order ==> q in smap) && k in smap
    ensures Writes(smap, order + [k], floatOf) == Writes(smap, order, floatOf) + [Write(Parse(k), Stored(smap[k], floatOf))]
    ensures Writes(smap, order + [k], floatOf)[..|order|] == Writes(smap, order, floatOf)
  {
  }

  lemma {:induction false} TouchingNone(history: seq<Write>, k: string)
    requires forall i :: 0 <= i < |history| ==> history[i].target.key != k
    ensures Touching(history, k) == []
  {
    if history != [] {
      TouchingNone(history[..|history| - 1], k);
    }
  }

  lemma {:induction false} TouchingOnce(history: seq<Write>, at: nat, k: string)
    requires at < |history|
    requires forall i :: 0 <= i < |history| ==> (history[i].target.key == k <==> i == at)
    ensures Touching(history, k) == [history[at]]
  {
    var front := history[..|history| - 1];
    if at == |front| {
      TouchingNone(front, k);
    } else {
      TouchingOnce(front, at, k);
    }
  }

  lemma {:induction false} TouchingSome(history: seq<Write>, at: nat, k: string)
    requires at < |history| && history[at].target.key == k
    ensures Touching(history, k) != []
  {
    if at < |history| - 1 {
      TouchingSome(history[..|history| - 1], at, k);
    }
  }

  /** The only write to a key decides what it holds. */
  lemma WrittenOnce(start: Storage, history: seq<Write>, at: nat, k: string)
    requires at < |history|
    requires forall i :: 0 <= i < |history| ==> (history[i].target.key == k <==> i == at)
    ensures SameAt(Replay(start, history), Put(start, history[at].target, history[at].value), k)
  {
    TouchingOnce(history, at, k);
    ReplayLocal(start, history, k);
    assert Replay(start, [history[at]]) == Put(start, history[at].target, history[at].value);
  }

  lemma NotWritten(start: Storage, history: seq<Write>, k: string)
    requires forall i :: 0 <= i < |history| ==> history[i].target.key != k
    ensures SameAt(Replay(start, history), start, k)
  {
    TouchingNone(history, k);
    ReplayLocal(start, history, k);
  }

  /** The only write to an entry is the last one. */
  lemma {:induction false} LastSetOnce(start: map<string, Value>, history: seq<Write>, at: nat, m: string, x: string)
    requires at < |history| && history[at].target == Entry(m, x)
    requires forall i :: 0 <= i < |history| && history[i].target.key == m ==> history[i].target.Entry?
    requires forall i :: 0 <= i < |history| && history[i].target == Entry(m, x) ==> i == at
    ensures LastSet(start, history, m, x) == Some(history[at].value)
  {
    if at < |history| - 1 {
      LastSetOnce(start, history[..|history| - 1], at, m, x);
    }
  }

  lemma {:induction false} LastSetNone(start: map<string, Value>, history: seq<Write>, m: string, x: string)
    requires forall i :: 0 <= i < |history| && history[i].target.key == m ==>
      history[i].target.Entry? && history[i].target != Entry(m, x)
    ensures LastSet(start, history, m, x) == if x in start then Some(start[x]) else None
  {
    if history != [] {
      LastSetNone(start, history[..|history| - 1], m, x);
    }
  }

  // ---------- the order of setting a map ----------

  /** Keys of a map given to SetMap that write to the same key of the store only set entries of it. */
  ghost predicate Compatible(keys: set<string>) {
    forall p, q :: p in keys && q in keys && p != q && Parse(p).key == Parse(q).key ==> Parse(p).Entry? && Parse(q).Entry?
  }

  /** Entry x of m, set in some order, ends up as the one key for it says, or as it was. */
  lemma EntryInOrder(entries: map<string, Value>, smap: map<string, Value>, order: seq<string>,
                     floatOf: string -> Option<real>, m: string, x: string)
    requires IsOrder(order, smap.Keys)
    requires forall q :: q in smap && Parse(q).key == m ==> Parse(q).Entry?
    ensures LastSet(entries, Writes(smap, order, floatOf), m, x) ==
      if IndexOf(Entry(m, x)) in smap && Parse(IndexOf(Entry(m, x))) == Entry(m, x)
      then Some(Stored(smap[IndexOf(Entry(m, x))], floatOf))
      else if x in entries then Some(entries[x]) else None
  {
    var history, q := Writes(smap, order, floatOf), IndexOf(Entry(m, x));
    forall i | 0 <= i < |order| && history[i].target == Entry(m, x) ensures order[i] == q {
      IndexOfParse(order[i]);
    }
    if q in smap && Parse(q) == Entry(m, x) {
      var at :| 0 <= at < |order| && order[at] == q;
      LastSetOnce(entries, history, at, m, x);
    } else {
      LastSetNone(entries, history, m, x);
    }
  }

  /** A key that only entries are set of holds the same map after every order. */
  lemma EntriesSame(start: Storage, smap: map<string, Value>, o1: seq<string>, o2: seq<string>,
                    floatOf: string -> Option<real>, m: string, q: string)
    requires IsOrder(o1, smap.Keys) && IsOrder(o2, smap.Keys) && q in smap && Parse(q).key == m
    requires forall p :: p in smap && Parse(p).key == m ==> Parse(p).Entry?
    ensures SameAt(Replay(start, Writes(smap, o1, floatOf)), Replay(start, Writes(smap, o2, floatOf)), m)
  {
    var a, b := Replay(start, Writes(smap, o1, floatOf)), Replay(start, Writes(smap, o2, floatOf));
    HoldsEntries(start, smap, o1, floatOf, m, q);
    HoldsEntries(start, smap, o2, floatOf, m, q);
    var d, e := EntriesOf(a, m), EntriesOf(b, m);
    forall x ensures (x in d <==> x in e) && (x in d ==> d[x] == e[x]) {
      EntrySame(start, smap, o1, o2, floatOf, m, x);
    }
    assert d == e;
  }

  lemma EntrySame(start: Storage, smap: map<string, Value>, o1: seq<string>, o2: seq<string>,
                  floatOf: string -> Option<real>, m: string, x: string)
    requires IsOrder(o1, smap.Keys) && IsOrder(o2, smap.Keys)
    requires forall p :: p in smap && Parse(p).key == m ==> Parse(p).Entry?
    ensures var d := EntriesOf(Replay(start, Writes(smap, o1, floatOf)), m);
      var e := EntriesOf(Replay(start, Writes(smap, o2, floatOf)), m);
      (x in d <==> x in e) && (x in d ==> d[x] == e[x])
  {
    EntryInOrder(EntriesOf(start, m), smap, o1, floatOf, m, x);
    EntryInOrder(EntriesOf(start, m), smap, o2, floatOf, m, x);
    MapHistory(start, Writes(smap, o1, floatOf), m, x);
    MapHistory(start, Writes(smap, o2, floatOf), m, x);
  }

  lemma HoldsEntries(start: Storage, smap: map<string, Value>, order: seq<string>,
                     floatOf: string -> Option<real>, m: string, q: string)
    requires IsOrder(order, smap.Keys) && q in smap && Parse(q).key == m
    requires forall p :: p in smap && Parse(p).key == m ==> Parse(p).Entry?
    ensures var after := Replay(start, Writes(smap, order, floatOf)); m in after && after[m].Dict?
  {
    var at :| 0 <= at < |order| && order[at] == q;
    TouchingSome(Writes(smap, order, floatOf), at, m);
    MapHistory(start, Writes(smap, order, floatOf), m, "");
  }

  /** What a key holds that only one key of the map writes to. */
  lemma AloneWritten(start: Storage, smap: map<string, Value>, order: seq<string>, floatOf: string -> Option<real>, q: string)
    requires IsOrder(order, smap.Keys) && q in smap
    requires forall p :: p in smap && Parse(p).key == Parse(q).key ==> p == q
    ensures SameAt(Replay(start, Writes(smap, order, floatOf)),
                   Put(start, Parse(q), Stored(smap[q], floatOf)), Parse(q).key)
  {
    var at :| 0 <= at < |order| && order[at] == q;
    WrittenOnce(start, Writes(smap, order, floatOf), at, Parse(q).key);
  }

  lemma OrdersSameAt(start: Storage, smap: map<string, Value>, o1: seq<string>, o2: seq<string>,
                     floatOf: string -> Option<real>, k: string)
    requires IsOrder(o1, smap.Keys) && IsOrder(o2, smap.Keys) && Compatible(smap.Keys)
    ensures SameAt(Replay(start, Writes(smap, o1, floatOf)), Replay(start, Writes(smap, o2, floatOf)), k)
  {
    if q :| q in smap && Parse(q).key == k {
      if p :| p in smap && p != q && Parse(p).key == k {
        EntriesSame(start, smap, o1, o2, floatOf, k, q);
      } else {
        AloneWritten(start, smap, o1, floatOf, q);
        AloneWritten(start, smap, o2, floatOf, q);
      }
    } else {
      NotWritten(start, Writes(smap, o1, floatOf), k);
      NotWritten(start, Writes(smap, o2, floatOf), k);
    }
  }

  ghost predicate OrderFree(keys: set<string>, floatOf: string -> Option<real>) {
    forall start, smap: map<string, Value>, o1, o2 :: smap.Keys == keys && IsOrder(o1, keys) && IsOrder(o2, keys) ==>
      Replay(start, Writes(smap, o1, floatOf)) == Replay(start, Writes(smap, o2, floatOf))
  }

  /** What was written last shows in what the key holds. */
  lemma LastTwo(start: Storage, smap: map<string, Value>, front: seq<string>, p: string, q: string,
                floatOf: string -> Option<real>)
    requires (forall k :: k in front ==> k in smap) && p in smap && q in smap && smap[q] == Nil
    ensures var after, last := Replay(start, Writes(smap, front + [p, q], floatOf)), Parse(q);
      last.key in after && match last
        case Push(_) => after[last.key].List?
        case Entry(_, _) => after[last.key].Dict?
        case Whole(_) => after[last.key].Nil?
  {
    var order := front + [p];
    assert front + [p, q] == order + [q];
    WritesAppend(smap, order, q, floatOf);
  }

  /** Setting a map of values does not depend on the Go map's order iff the keys are compatible. */
  lemma SetMapOrderFreeIff(keys: set<string>, floatOf: string -> Option<real>)
    ensures OrderFree(keys, floatOf) <==> Compatible(keys)
  {
    if Compatible(keys) {
      forall start, smap: map<string, Value>, o1, o2 | smap.Keys == keys && IsOrder(o1, keys) && IsOrder(o2, keys)
        ensures Replay(start, Writes(smap, o1, floatOf)) == Replay(start, Writes(smap, o2, floatOf))
      {
        SameStorage(start, smap, o1, o2, floatOf);
      }
    } else {
      var p, q :| p in keys && q in keys && p != q && Parse(p).key == Parse(q).key && !(Parse(p).Entry? && Parse(q).Entry?);
      LastDecides(keys, floatOf, p, q);
    }
  }

  /** With null for every value, what the key holds tells which of the two was written last. */
  lemma LastDecides(keys: set<string>, floatOf: string -> Option<real>, p: string, q: string)
    requires p in keys && q in keys && p != q && Parse(p).key == Parse(q).key && !(Parse(p).Entry? && Parse(q).Entry?)
    ensures !OrderFree(keys, floatOf)
  {
    var smap: map<string, Value> := map k | k in keys :: Nil;
    var front := OrderExists(keys - {p, q});
    JoinOrders(keys, front, [p, q], {p, q});
    JoinOrders(keys, front, [q, p], {p, q});
    DifferentEnds(smap, front, floatOf, p, q);
    assert smap.Keys == keys;
  }

  lemma DifferentEnds(smap: map<string, Value>, front: seq<string>, floatOf: string -> Option<real>, p: string, q: string)
    requires (forall k :: k in front ==> k in smap) && p in smap && q in smap && smap[p] == Nil && smap[q] == Nil
    requires p != q && Parse(p).key == Parse(q).key && !(Parse(p).Entry? && Parse(q).Entry?)
    ensures Replay(map[], Writes(smap, front + [p, q], floatOf)) != Replay(map[], Writes(smap, front + [q, p], floatOf))
  {
    IndexOfParse(p);
    IndexOfParse(q);
    LastTwo(map[], smap, front, p, q, floatOf);
    LastTwo(map[], smap, front, q, p, floatOf);
  }

  lemma SameStorage(start: Storage, smap: map<string, Value>, o1: seq<string>, o2: seq<string>,
                    floatOf: string -> Option<real>)
    requires IsOrder(o1, smap.Keys) && IsOrder(o2, smap.Keys) && Compatible(smap.Keys)
    ensures Replay(start, Writes(smap, o1, floatOf)) == Replay(start, Writes(smap, o2, floatOf))
  {
    var a, b := Replay(start, Writes(smap, o1, floatOf)), Replay(start, Writes(smap, o2, floatOf));
    forall k ensures (k in a <==> k in b) && (k in a ==> a[k] == b[k]) {
      OrdersSameAt(start, smap, o1, o2, floatOf, k);
    }
    assert a.Keys == b.Keys;
    assert a == b;
  }
}
