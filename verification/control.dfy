/**
 Control structures: the `:control` keys of an expected object, the comparison context
 they are decoded into, the checks on one key, and the context of the next array level.
 */
module Control {
  import opened Wrappers
  import opened JsonValues
  import opened MapOrders
  import Strconv

  /**
   A comparison context, by the names of the settings. `flags` holds the boolean settings
   that are on, `texts` the settings whose value is a string or a number text; not_equal
   with null is `notEqual == Some(Null)`.
   */
  datatype Context = Context(ints: map<string, int>, flags: set<string>, texts: map<string, string>, notEqual: Option<Json>)
  {
    function Depth(): int {
      if "depth" in ints then ints["depth"] else 0
    }

    predicate OrderMatters() {
      "order_matters" in flags
    }

    predicate NoExtra() {
      "no_extra" in flags
    }

    predicate ElementNoExtra() {
      "element_no_extra" in flags
    }

    function Text(key: string): Option<string> {
      if key in texts then Some(texts[key]) else None
    }

    /** The context of a key for which the expected object gives a value. */
    function MustExist(): Context {
      this.(flags := flags + {"must_exist"})
    }
  }

  const EMPTY := Context(map[], {}, map[], None)

  // ---------- decoding a control object ----------

  /** How the decoding switch treats a setting. */
  datatype Kind = IntKind | FlagKind | RangeKind | PatternKind | AffixKind | NotEqualKind | UnknownKind

  function KindOf(key: string): Kind {
    if key in {"depth", "element_count"} then IntKind
    else if key in {"order_matters", "no_extra", "element_no_extra", "must_exist", "must_not_exist", "is_string",
                    "is_number", "is_bool", "is_array", "is_object"} then FlagKind
    else if key in {"number_gt", "number_ge", "number_lt", "number_le"} then RangeKind
    else if key in {"match", "not_match"} then PatternKind
    else if key in {"starts_with", "ends_with"} then AffixKind
    else if key == "not_equal" then NotEqualKind
    else UnknownKind
  }

  /** Whether a value has the type a setting of this kind asks for. */
  predicate Accepts(kind: Kind, v: Json) {
    match kind
    case IntKind => v.Num? && Strconv.ParseInt(v.text).Some?
    case FlagKind => v.Bool?
    case RangeKind => v.Num?
    case PatternKind => v.Str?
    case AffixKind => v.Str? && v.s != ""
    case NotEqualKind => !v.Obj?
    case UnknownKind => false
  }

  /** One assignment of the decoding switch; a number range also switches is_number on. */
  function Apply(c: Context, key: string, kind: Kind, v: Json): Context
    requires Accepts(kind, v)
  {
    match kind
    case IntKind => c.(ints := c.ints[key := Strconv.ParseInt(v.text).value])
    case FlagKind => c.(flags := if v.b then c.flags + {key} else c.flags - {key})
    case RangeKind => c.(texts := c.texts[key := v.text], flags := c.flags + {"is_number"})
    case PatternKind | AffixKind => c.(texts := c.texts[key := v.s])
    case NotEqualKind => c.(notEqual := Some(v))
  }

  ghost predicate AllValid(fields: map<string, Json>) {
    forall k :: k in fields ==> Accepts(KindOf(k), fields[k])
  }

  ghost predicate HasRange(fields: map<string, Json>, done: set<string>) {
    exists k :: k in done && k in fields && KindOf(k).RangeKind?
  }

  /** What the settings in `done` mean together, without any visiting order. */
  ghost function Meaning(fields: map<string, Json>, done: set<string>): Context
    requires AllValid(fields) && done <= fields.Keys
  {
    Context(
      map k | k in done && KindOf(k).IntKind? :: Strconv.ParseInt(fields[k].text).value,
      (set k | k in done && KindOf(k).FlagKind? && fields[k] == Bool(true)) + (if HasRange(fields, done) then {"is_number"} else {}),
      map k | k in done && (KindOf(k).RangeKind? || KindOf(k).PatternKind? || KindOf(k).AffixKind?) ::
        if fields[k].Num? then fields[k].text else fields[k].s,
      if "not_equal" in done then Some(fields["not_equal"]) else None)
  }

  ghost function MeaningOf(fields: map<string, Json>): Context
    requires AllValid(fields)
  {
    Meaning(fields, fields.Keys)
  }

  /** is_number is switched off although a number range switches it on: the later key wins. */
  ghost predicate Contradictory(fields: map<string, Json>) {
    HasRange(fields, fields.Keys) && "is_number" in fields && fields["is_number"] == Bool(false)
  }

  lemma ApplyInts(fields: map<string, Json>, done: set<string>, key: string)
    requires AllValid(fields) && done <= fields.Keys && key in fields && key !in done
    ensures Apply(Meaning(fields, done), key, KindOf(key), fields[key]).ints == Meaning(fields, done + {key}).ints
  {
  }

  lemma ApplyTexts(fields: map<string, Json>, done: set<string>, key: string)
    requires AllValid(fields) && done <= fields.Keys && key in fields && key !in done
    ensures Apply(Meaning(fields, done), key, KindOf(key), fields[key]).texts == Meaning(fields, done + {key}).texts
  {
  }

  lemma ApplyFlags(fields: map<string, Json>, done: set<string>, key: string)
    requires AllValid(fields) && done <= fields.Keys && key in fields && key !in done && !Contradictory(fields)
    ensures Apply(Meaning(fields, done), key, KindOf(key), fields[key]).flags == Meaning(fields, done + {key}).flags
  {
    if KindOf(key).RangeKind? {
      assert HasRange(fields, done + {key});
    } else {
      assert HasRange(fields, done + {key}) <==> HasRange(fields, done);
    }
  }

  lemma ApplyMeaning(fields: map<string, Json>, done: set<string>, key: string)
    requires AllValid(fields) && done <= fields.Keys && key in fields && key !in done && !Contradictory(fields)
    ensures Apply(Meaning(fields, done), key, KindOf(key), fields[key]) == Meaning(fields, done + {key})
  {
    ApplyInts(fields, done, key);
    ApplyTexts(fields, done, key);
    ApplyFlags(fields, done, key);
  }

  /** A context but for what it says about is_number. */
  function Unnumbered(c: Context): Context {
    c.(flags := c.flags - {"is_number"})
  }

  lemma ApplyUnnumbered(fields: map<string, Json>, done: set<string>, key: string, c: Context)
    requires AllValid(fields) && done <= fields.Keys && key in fields && key !in done
    requires Unnumbered(c) == Unnumbered(Meaning(fields, done))
    ensures Unnumbered(Apply(c, key, KindOf(key), fields[key])) == Unnumbered(Meaning(fields, done + {key}))
  {
    ApplyInts(fields, done, key);
    ApplyTexts(fields, done, key);
    var after, meant := Apply(c, key, KindOf(key), fields[key]).flags, Meaning(fields, done + {key}).flags;
    forall k ensures k in after - {"is_number"} <==> k in meant - {"is_number"} {
      assert k != "is_number" ==> (k in c.flags <==> k in Unnumbered(c).flags);
      assert k != "is_number" ==> (k in Meaning(fields, done).flags <==> k in Unnumbered(Meaning(fields, done)).flags);
    }
  }

  /** The decoding loop run over the keys in the given order. */
  ghost function Fill(fields: map<string, Json>, order: seq<string>): (out: Option<Context>)
    requires forall k :: k in order ==> k in fields
  {
    if order == [] then Some(EMPTY)
    else
      var key := order[|order| - 1];
      var before := Fill(fields, order[..|order| - 1]);
      if before.Some? && Accepts(KindOf(key), fields[key])
      then Some(Apply(before.value, key, KindOf(key), fields[key]))
      else None
  }

  /** Whatever the order, decoding gives the meaning but for is_number, and all of it if nothing contradicts. */
  lemma {:induction false} FillMeaning(fields: map<string, Json>, order: seq<string>)
    requires AllValid(fields) && (forall k :: k in order ==> k in fields)
    requires forall i, j :: 0 <= i < j < |order| ==> order[i] != order[j]
    ensures Keys(order) <= fields.Keys && Fill(fields, order).Some?
    ensures Unnumbered(Fill(fields, order).value) == Unnumbered(Meaning(fields, Keys(order)))
    ensures !Contradictory(fields) ==> Fill(fields, order).value == Meaning(fields, Keys(order))
  {
    if order != [] {
      var n := |order| - 1;
      var front := order[..n];
      FillMeaning(fields, front);
      ApplyUnnumbered(fields, Keys(front), order[n], Fill(fields, front).value);
      if !Contradictory(fields) {
        ApplyMeaning(fields, Keys(front), order[n]);
      }
      assert Keys(order) == Keys(front) + {order[n]};
    } else {
      assert Keys(order) == {} && Meaning(fields, {}) == EMPTY;
    }
  }

  lemma {:induction false} FillFailsOnInvalid(fields: map<string, Json>, order: seq<string>, bad: string)
    requires (forall k :: k in order ==> k in fields) && bad in order && !Accepts(KindOf(bad), fields[bad])
    ensures Fill(fields, order).None?
  {
    var n := |order| - 1;
    if order[n] != bad {
      assert bad in order[..n];
      FillFailsOnInvalid(fields, order[..n], bad);
    }
  }

  /** Whether decoding fails does not depend on the order, nor does its result unless the object is contradictory. */
  lemma FillOrderIndependent(fields: map<string, Json>, order: seq<string>)
    requires IsOrder(order, fields.Keys)
    ensures Fill(fields, order).Some? <==> AllValid(fields)
    ensures AllValid(fields) && !Contradictory(fields) ==> Fill(fields, order) == Some(MeaningOf(fields))
  {
    if AllValid(fields) {
      FillMeaning(fields, order);
      assert Keys(order) == fields.Keys;
    } else {
      var bad :| bad in fields && !Accepts(KindOf(bad), fields[bad]);
      FillFailsOnInvalid(fields, order, bad);
    }
  }

  /** The last key decides whether is_number is on. */
  lemma FillLast(fields: map<string, Json>, front: seq<string>, key: string)
    requires AllValid(fields) && key in fields && IsOrder(front + [key], fields.Keys)
    requires forall k :: k in front ==> k in fields
    ensures Fill(fields, front + [key]).Some?
    ensures var c := Fill(fields, front + [key]).value;
      && Unnumbered(c) == Unnumbered(MeaningOf(fields))
      && (KindOf(key).RangeKind? ==> "is_number" in c.flags)
      && (key == "is_number" && fields[key] == Bool(false) ==> "is_number" !in c.flags)
  {
    FillMeaning(fields, front + [key]);
    assert Keys(front + [key]) == fields.Keys;
    assert (front + [key])[..|front|] == front;
  }

  /** A context is determined by what it says about is_number and by the rest. */
  lemma SameContext(c: Context, d: Context)
    requires Unnumbered(c) == Unnumbered(d) && ("is_number" in c.flags <==> "is_number" in d.flags)
    ensures c == d
  {
    assert c.flags == if "is_number" in c.flags then Unnumbered(c).flags + {"is_number"} else Unnumbered(c).flags;
    assert d.flags == if "is_number" in d.flags then Unnumbered(d).flags + {"is_number"} else Unnumbered(d).flags;
  }

  /** An order in which a number range comes last, so that is_number is on. */
  lemma OrderOfMeaning(fields: map<string, Json>) returns (order: seq<string>)
    requires AllValid(fields)
    ensures IsOrder(order, fields.Keys) && Fill(fields, order) == Some(MeaningOf(fields))
  {
    if Contradictory(fields) {
      var on :| on in fields && KindOf(on).RangeKind?;
      var front := OrderEndingWith(fields.Keys, on);
      order := front + [on];
      FillLast(fields, front, on);
      SameContext(Fill(fields, order).value, MeaningOf(fields));
    } else {
      order := OrderExists(fields.Keys);
      FillOrderIndependent(fields, order);
    }
  }

  /** An order that ends with is_number and so switches it off. */
  lemma OrderSwitchingOff(fields: map<string, Json>) returns (order: seq<string>)
    requires AllValid(fields) && Contradictory(fields)
    ensures IsOrder(order, fields.Keys) && Fill(fields, order) == Some(Unnumbered(MeaningOf(fields)))
  {
    var front := OrderEndingWith(fields.Keys, "is_number");
    order := front + ["is_number"];
    FillLast(fields, front, "is_number");
    SameContext(Fill(fields, order).value, Unnumbered(MeaningOf(fields)));
  }

  /** The two contexts an order can decode to. */
  lemma FillIsEither(fields: map<string, Json>, order: seq<string>)
    requires AllValid(fields) && IsOrder(order, fields.Keys)
    ensures Fill(fields, order).Some?
    ensures var c, meant := Fill(fields, order).value, MeaningOf(fields);
      c == meant || (Contradictory(fields) && c == Unnumbered(meant))
  {
    FillMeaning(fields, order);
    assert Keys(order) == fields.Keys;
    var c, meant := Fill(fields, order).value, MeaningOf(fields);
    if Contradictory(fields) {
      assert "is_number" in meant.flags;
      assert c.flags == if "is_number" in c.flags then Unnumbered(c).flags + {"is_number"} else Unnumbered(c).flags;
      assert meant.flags == Unnumbered(meant).flags + {"is_number"};
    }
  }

  /**
   Go ranges over a map in an unspecified order, so a control object must decode to the
   same context in every order. It does so exactly when it is not contradictory.
   */
  lemma FillOrderIndependentIff(fields: map<string, Json>)
    requires AllValid(fields)
    ensures !Contradictory(fields) <==>
      forall o1, o2 :: IsOrder(o1, fields.Keys) && IsOrder(o2, fields.Keys) ==> Fill(fields, o1) == Fill(fields, o2)
  {
    if Contradictory(fields) {
      var o1 := OrderSwitchingOff(fields);
      var o2 := OrderOfMeaning(fields);
      assert "is_number" in MeaningOf(fields).flags;
    } else {
      forall o1, o2 | IsOrder(o1, fields.Keys) && IsOrder(o2, fields.Keys)
        ensures Fill(fields, o1) == Fill(fields, o2)
      {
        FillOrderIndependent(fields, o1);
        FillOrderIndependent(fields, o2);
      }
    }
  }

  lemma StopsOnInvalid(fields: map<string, Json>, order: seq<string>, pending: set<string>, bad: string)
    requires pending <= fields.Keys && IsOrder(order, fields.Keys - pending)
    requires bad in pending && !Accepts(KindOf(bad), fields[bad])
    ensures exists o :: IsOrder(o, fields.Keys) && Fill(fields, o).None?
  {
    var rest := OrderExists(pending);
    var o := order + rest;
    JoinOrders(fields.Keys, order, rest, pending);
    assert bad in rest;
    FillFailsOnInvalid(fields, o, bad);
  }

  /** The decoding loop: the keys of `fields` are visited in an arbitrary order. */
  method FillComparisonContext(fields: map<string, Json>) returns (out: Option<Context>)
    ensures out.Some? <==> AllValid(fields)
    ensures out.Some? && !Contradictory(fields) ==> out.value == MeaningOf(fields)
    ensures exists o :: IsOrder(o, fields.Keys) && out == Fill(fields, o)
  {
    var context := EMPTY;
    var pending := fields.Keys;
    ghost var order: seq<string> := [];
    while pending != {}
      invariant pending <= fields.Keys && IsOrder(order, fields.Keys - pending)
      invariant Fill(fields, order) == Some(context)
      decreases |pending|
    {
      var key :| key in pending;
      var longer := order + [key];
      assert longer[..|order|] == order;
      if !Accepts(KindOf(key), fields[key]) {
        StopsOnInvalid(fields, order, pending, key);
        return None;
      }
      context := Apply(context, key, KindOf(key), fields[key]);
      pending := pending - {key};
      order := longer;
    }
    FillOrderIndependent(fields, order);
    return Some(context);
  }

  // ---------- the key a control belongs to ----------

  const SUFFIX := ":control"

  predicate IsControlKey(key: string) {
    |key| >= |SUFFIX| && key[|key| - |SUFFIX|..] == SUFFIX
  }

  function ControlKey(base: string): string {
    base + SUFFIX
  }

  predicate SuffixAt(key: string, j: nat) {
    j + |SUFFIX| <= |key| && key[j..j + |SUFFIX|] == SUFFIX
  }

  /** Where a lazy `.*?:control` starting at i finds its suffix; a dot does not match a newline. */
  function LazyEnd(key: string, i: nat): (r: Option<nat>)
    requires i <= |key|
    ensures r.Some? ==> i <= r.value <= |key| && SuffixAt(key, r.value)
    decreases |key| - i
  {
    if SuffixAt(key, i) then Some(i)
    else if i == |key| || key[i] == '\n' then None
    else LazyEnd(key, i + 1)
  }

  /** The first group of the leftmost match of `(?P<Key>.*?):control` at or after i. */
  function RegexKey(key: string, i: nat): string
    requires i <= |key|
    decreases |key| - i
  {
    match LazyEnd(key, i)
    case Some(j) => key[i..j]
    case None => if i == |key| then "" else RegexKey(key, i + 1)
  }

  /** The key whose value and control are being compared. */
  function BaseOf(key: string): string {
    if IsControlKey(key) then RegexKey(key, 0) else key
  }

  /** A control key names its base key the way it looks. */
  predicate CleanKey(key: string) {
    IsControlKey(key) ==> ControlKey(BaseOf(key)) == key
  }

  lemma {:induction false} LazyEndIs(key: string, i: nat, j: nat)
    requires i <= j && SuffixAt(key, j)
    requires forall k :: i <= k < j ==> key[k] != '\n' && !SuffixAt(key, k)
    ensures LazyEnd(key, i) == Some(j)
    decreases j - i
  {
    if i < j {
      LazyEndIs(key, i + 1, j);
    }
  }

  lemma {:induction false} LazyEndSkips(key: string, i: nat)
    requires i <= |key| && LazyEnd(key, i).Some?
    ensures forall k :: i <= k < LazyEnd(key, i).value ==> key[k] != '\n' && !SuffixAt(key, k)
    decreases |key| - i
  {
    if !SuffixAt(key, i) {
      LazyEndSkips(key, i + 1);
    }
  }

  lemma {:induction false} RegexKeyShort(key: string, i: nat)
    requires i <= |key|
    ensures |RegexKey(key, i)| + |SUFFIX| + i <= |key| || RegexKey(key, i) == ""
    decreases |key| - i
  {
    if LazyEnd(key, i).None? && i < |key| {
      RegexKeyShort(key, i + 1);
    }
  }

  /** The expression stops at the first suffix, so no base key is itself a control key. */
  lemma {:induction false} RegexKeyIsNoControl(key: string, i: nat)
    requires i <= |key|
    ensures !IsControlKey(RegexKey(key, i))
    decreases |key| - i
  {
    match LazyEnd(key, i) {
      case Some(j) =>
        LazyEndSkips(key, i);
        var base := key[i..j];
        if IsControlKey(base) {
          assert base[|base| - |SUFFIX|..] == key[j - |SUFFIX|..j];
          assert SuffixAt(key, j - |SUFFIX|);
        }
      case None =>
        if i < |key| {
          RegexKeyIsNoControl(key, i + 1);
        }
    }
  }

  lemma BaseIsNoControl(key: string)
    ensures !IsControlKey(BaseOf(key))
  {
    if IsControlKey(key) {
      RegexKeyIsNoControl(key, 0);
    }
  }

  lemma ControlKeyIff(key: string)
    ensures IsControlKey(key) <==> exists base :: key == base + ":control"
  {
    if IsControlKey(key) {
      assert key == key[..|key| - |SUFFIX|] + ":control";
    }
  }

  /** A control key is clean iff its base holds no newline and `:control` occurs nowhere earlier. */
  lemma CleanKeyIff(base: string)
    ensures CleanKey(ControlKey(base)) <==>
      forall k :: 0 <= k < |base| ==> base[k] != '\n' && !SuffixAt(ControlKey(base), k)
  {
    var key := ControlKey(base);
    assert IsControlKey(key) && SuffixAt(key, |base|);
    assert forall k :: 0 <= k < |base| ==> key[k] == base[k];
    if forall k :: 0 <= k < |base| ==> base[k] != '\n' && !SuffixAt(key, k) {
      LazyEndIs(key, 0, |base|);
    }
    if CleanKey(key) {
      assert BaseOf(key) == base;
      match LazyEnd(key, 0) {
        case Some(j) => LazyEndSkips(key, 0);
        case None => RegexKeyShort(key, 1);
      }
    }
  }

  lemma {:induction false} RegexKeyIs(key: string, k: nat, i: nat, j: nat)
    requires k <= i <= j && SuffixAt(key, j) && (forall m :: 0 <= m < j ==> !SuffixAt(key, m))
    requires (forall m :: i <= m < j ==> key[m] != '\n') && (i == k || key[i - 1] == '\n')
    ensures RegexKey(key, k) == key[i..j]
    decreases i - k
  {
    if k == i {
      LazyEndIs(key, i, j);
    } else {
      LazyEndNone(key, k, i - 1, j);
      RegexKeyIs(key, k + 1, i, j);
    }
  }

  lemma {:induction false} LazyEndNone(key: string, k: nat, at: nat, j: nat)
    requires k <= at < j <= |key| && key[at] == '\n' && forall m :: 0 <= m < j ==> !SuffixAt(key, m)
    ensures LazyEnd(key, k).None?
    decreases at - k
  {
    if key[k] != '\n' {
      LazyEndNone(key, k + 1, at, j);
    }
  }

  lemma {:induction false} FirstSuffix(key: string, k: nat) returns (j: nat)
    requires SuffixAt(key, k)
    ensures j <= k && SuffixAt(key, j) && forall m :: 0 <= m < j ==> !SuffixAt(key, m)
    decreases k
  {
    if m: nat :| m < k && SuffixAt(key, m) {
      j := FirstSuffix(key, m);
    } else {
      j := k;
    }
  }

  lemma {:induction false} LineStart(key: string, j: nat) returns (i: nat)
    requires j <= |key|
    ensures i <= j && (forall m :: i <= m < j ==> key[m] != '\n') && (i == 0 || key[i - 1] == '\n')
    decreases j
  {
    if j == 0 || key[j - 1] == '\n' {
      i := j;
    } else {
      i := LineStart(key, j - 1);
    }
  }

  /** The base read from any control key: the text before its first `:control`, from the start of that line. */
  lemma BaseIs(key: string) returns (i: nat, j: nat)
    requires IsControlKey(key)
    ensures i <= j <= |key| && BaseOf(key) == key[i..j]
    ensures SuffixAt(key, j) && forall m :: 0 <= m < j ==> !SuffixAt(key, m)
    ensures (forall m :: i <= m < j ==> key[m] != '\n') && (i == 0 || key[i - 1] == '\n')
  {
    j := FirstSuffix(key, |key| - |SUFFIX|);
    i := LineStart(key, j);
    RegexKeyIs(key, 0, i, j);
  }

  // ---------- the checks on one key ----------

  predicate HasType(right: Json, wanted: JsonType) {
    TypeOf(right) == wanted
  }

  /** The is_* settings form one else-if chain: only the first one set is looked at. */
  predicate KindCheck(right: Json, c: Context) {
    if "is_string" in c.flags then HasType(right, StringType)
    else if "is_number" in c.flags then HasType(right, NumberType)
    else if "is_bool" in c.flags then HasType(right, BoolType)
    else if "is_array" in c.flags then HasType(right, ArrayType)
    else if "is_object" in c.flags then HasType(right, ObjectType)
    else true
  }

  /** Both operands of a range check, as floats. */
  predicate RangeCheck(lib: Library, right: Json, bound: Option<string>, holds: (real, real) -> bool) {
    bound.Some? ==>
      && right.Num?
      && lib.floatOf(right.text).Some?
      && lib.floatOf(bound.value).Some?
      && holds(lib.floatOf(right.text).value, lib.floatOf(bound.value).value)
  }

  function MatchText(lib: Library, right: Json): string {
    if right.Str? then right.s else lib.sprint(right)
  }

  predicate TextChecks(lib: Library, right: Json, c: Context) {
    var pattern, notPattern, prefix, suffix :=
      c.Text("match"), c.Text("not_match"), c.Text("starts_with"), c.Text("ends_with");
    && (pattern.Some? ==> lib.regexMatch(pattern.value, MatchText(lib, right)) == Some(true))
    && (notPattern.Some? ==> lib.regexMatch(notPattern.value, MatchText(lib, right)) == Some(false))
    && (prefix.Some? ==> right.Str? && prefix.value <= right.s)
    && (suffix.Some? ==>
          && right.Str?
          && |suffix.value| <= |right.s|
          && right.s[|right.s| - |suffix.value|..] == suffix.value)
  }

  predicate NotEqualCheck(lib: Library, right: Json, notEqual: Option<Json>) {
    match notEqual
    case None => true
    case Some(Null) => !right.Null?
    case Some(v) =>
      TypeOf(right) == TypeOf(v) ==>
        if v.Arr? then lib.marshal(v) != lib.marshal(right) else v != right
  }

  /** keyChecks without the wording of its errors; a missing key is passed as Null with ok = false. */
  predicate KeyChecks(lib: Library, right: Json, ok: bool, c: Context) {
    && KindCheck(right, c)
    && ("must_exist" in c.flags ==> ok)
    && ("must_not_exist" in c.flags ==> !ok)
    && ("element_count" in c.ints ==> right.Arr? && |right.elems| == c.ints["element_count"])
    && RangeCheck(lib, right, c.Text("number_ge"), (x, y) => x >= y)
    && RangeCheck(lib, right, c.Text("number_gt"), (x, y) => x > y)
    && RangeCheck(lib, right, c.Text("number_le"), (x, y) => x <= y)
    && RangeCheck(lib, right, c.Text("number_lt"), (x, y) => x < y)
    && TextChecks(lib, right, c)
    && NotEqualCheck(lib, right, c.notEqual)
  }

  // ---------- what the order of a contradictory control decides ----------

  ghost predicate On(fields: map<string, Json>, key: string) {
    key in fields && fields[key] == Bool(true)
  }

  /** A contradictory control of which another is_* setting takes over once is_number is off. */
  ghost predicate Ambiguous(fields: map<string, Json>) {
    && AllValid(fields) && Contradictory(fields) && !On(fields, "is_string")
    && (On(fields, "is_bool") || On(fields, "is_array") || On(fields, "is_object"))
  }

  lemma FlagMeaning(fields: map<string, Json>, key: string)
    requires AllValid(fields) && KindOf(key).FlagKind? && key != "is_number"
    ensures key in MeaningOf(fields).flags <==> On(fields, key)
  {
  }

  lemma TypeFlags()
    ensures forall key :: key in {"is_string", "is_bool", "is_array", "is_object"} ==>
      KindOf(key).FlagKind? && key != "is_number"
  {
    assert |"is_string"| == 9 && |"is_number"| == 9 && |"is_bool"| == 7 && |"is_array"| == 8 && |"is_object"| == 9;
    assert "is_string"[3] == 's' && "is_number"[3] == 'n' && "is_object"[3] == 'o';
  }

  /** The type settings of the meaning are the ones switched on. */
  lemma MeaningTypes(fields: map<string, Json>)
    requires AllValid(fields)
    ensures forall key :: key in {"is_string", "is_bool", "is_array", "is_object"} ==>
      (key in MeaningOf(fields).flags <==> On(fields, key))
  {
    TypeFlags();
    forall key | key in {"is_string", "is_bool", "is_array", "is_object"}
      ensures key in MeaningOf(fields).flags <==> On(fields, key)
    {
      FlagMeaning(fields, key);
    }
  }

  lemma MeaningBound(fields: map<string, Json>)
    requires AllValid(fields) && Contradictory(fields)
    ensures "is_number" in MeaningOf(fields).flags && HasBound(MeaningOf(fields))
  {
    var on :| on in fields && KindOf(on).RangeKind?;
    assert on in MeaningOf(fields).texts;
  }

  ghost predicate HasBound(c: Context) {
    "number_gt" in c.texts || "number_ge" in c.texts || "number_lt" in c.texts || "number_le" in c.texts
  }

  /** Only numbers pass a number range. */
  lemma BoundNeedsNumber(lib: Library, right: Json, ok: bool, c: Context)
    requires HasBound(c) && KeyChecks(lib, right, ok, c)
    ensures right.Num?
  {
  }

  lemma UnnumberedChecks(lib: Library, right: Json, ok: bool, c: Context)
    requires HasBound(c) && "is_number" in c.flags
    ensures KeyChecks(lib, right, ok, Unnumbered(c)) <==>
      && KeyChecks(lib, right, ok, c)
      && ("is_string" in c.flags || ("is_bool" !in c.flags && "is_array" !in c.flags && "is_object" !in c.flags))
  {
    assert |"is_string"| == 9 && |"is_number"| == 9 && |"is_bool"| == 7 && |"is_array"| == 8 && |"is_object"| == 9;
    assert |"must_exist"| == 10 && |"must_not_exist"| == 14;
    assert "is_string"[3] == 's' && "is_number"[3] == 'n' && "is_object"[3] == 'o';
    if KeyChecks(lib, right, ok, Unnumbered(c)) {
      BoundNeedsNumber(lib, right, ok, Unnumbered(c));
    }
    if KeyChecks(lib, right, ok, c) {
      BoundNeedsNumber(lib, right, ok, c);
    }
  }

  /** Read with is_number off, an ambiguous control lets nothing pass; any other reads the same either way. */
  lemma SwitchedOffChecks(lib: Library, fields: map<string, Json>, right: Json, ok: bool)
    requires AllValid(fields) && Contradictory(fields)
    ensures KeyChecks(lib, right, ok, Unnumbered(MeaningOf(fields))) <==>
      KeyChecks(lib, right, ok, MeaningOf(fields)) && !Ambiguous(fields)
  {
    MeaningTypes(fields);
    MeaningBound(fields);
    UnnumberedChecks(lib, right, ok, MeaningOf(fields));
  }

  /** Decoded in this order, the control lets the value pass. */
  ghost predicate Passes(lib: Library, fields: map<string, Json>, order: seq<string>, right: Json, ok: bool)
    requires forall k :: k in order ==> k in fields
  {
    Fill(fields, order).Some? && KeyChecks(lib, right, ok, Fill(fields, order).value)
  }

  ghost predicate OrdersAgree(lib: Library, fields: map<string, Json>, right: Json, ok: bool) {
    forall o1, o2 :: IsOrder(o1, fields.Keys) && IsOrder(o2, fields.Keys) ==>
      (Passes(lib, fields, o1, right, ok) <==> Passes(lib, fields, o2, right, ok))
  }

  /**
   The checks on an actual value come out the same in every order of the control object
   unless it is ambiguous and lets the value pass when is_number stays on.
   */
  lemma DecodingsAgreeIff(lib: Library, fields: map<string, Json>, right: Json, ok: bool)
    requires AllValid(fields)
    ensures OrdersAgree(lib, fields, right, ok) <==> !(Ambiguous(fields) && KeyChecks(lib, right, ok, MeaningOf(fields)))
  {
    if Ambiguous(fields) && KeyChecks(lib, right, ok, MeaningOf(fields)) {
      var o1 := OrderOfMeaning(fields);
      var o2 := OrderSwitchingOff(fields);
      SwitchedOffChecks(lib, fields, right, ok);
      assert Passes(lib, fields, o1, right, ok) && !Passes(lib, fields, o2, right, ok);
    } else {
      forall o | IsOrder(o, fields.Keys)
        ensures Passes(lib, fields, o, right, ok) <==> KeyChecks(lib, right, ok, MeaningOf(fields))
      {
        FillIsEither(fields, o);
        if Contradictory(fields) {
          SwitchedOffChecks(lib, fields, right, ok);
        }
      }
    }
  }

  // ---------- the context of the next array level ----------

  const STOPPED: int := -9999

  function NextDepth(depth: int): int {
    if depth < -1 || depth == 0 then STOPPED
    else if depth > 0 then depth - 1
    else depth
  }

  /** A context that says nothing but how to compare arrays and objects further down. */
  function Inner(depth: int, orderMatters: bool, noExtra: bool): Context {
    EMPTY.(
      ints := map["depth" := depth],
      flags := (if orderMatters then {"order_matters"} else {}) + (if noExtra then {"no_extra"} else {}))
  }

  function Next(c: Context): Context {
    var depth := NextDepth(c.Depth());
    Inner(depth, depth >= -1 && c.OrderMatters(), c.ElementNoExtra() || (depth >= -1 && c.NoExtra()))
  }

  lemma InnerSettings(depth: int, orderMatters: bool, noExtra: bool)
    ensures var c := Inner(depth, orderMatters, noExtra);
      && c.Depth() == depth
      && c.OrderMatters() == orderMatters
      && c.NoExtra() == noExtra
      && !c.ElementNoExtra()
  {
    assert |"order_matters"| == 13 && |"no_extra"| == 8 && |"element_no_extra"| == 16;
  }

  /** The context k array levels down. */
  ghost function Down(c: Context, k: nat): Context {
    if k == 0 then c else Next(Down(c, k - 1))
  }

  /** Whether a control with this depth still reaches k array levels down. */
  ghost predicate Reaches(depth: int, k: nat) {
    depth == -1 || k <= depth
  }

  /** The controls in force k levels down, in closed form and for every depth. */
  lemma {:induction false} DownClosedForm(c: Context, k: nat)
    requires k >= 1
    ensures var here := Reaches(c.Depth(), k);
      Down(c, k) == Inner(
        if c.Depth() == -1 then -1 else if here then c.Depth() - k else STOPPED,
        c.OrderMatters() && here,
        (k == 1 && c.ElementNoExtra()) || (here && (c.NoExtra() || c.ElementNoExtra())))
  {
    if k > 1 {
      DownClosedForm(c, k - 1);
      var d := Down(c, k - 1);
      InnerSettings(d.Depth(), d.OrderMatters(), d.NoExtra());
    }
  }
}
