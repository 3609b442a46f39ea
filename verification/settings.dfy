/**
 What each setting of a control accepts, from the control object itself: the comparison of
 an expected object that holds nothing but a control with one setting.
 */
module Settings {
  import opened Wrappers
  import opened JsonValues
  import opened Control
  import opened Matching
  import opened Comparison
  import opened ComparisonProperties
  import opened Settling
  import Strconv

  /** The expected object {"a:control": {key: v}}. */
  function Only(a: string, key: string, v: Json): Json {
    Obj(map[ControlKey(a) := Obj(map[key := v])])
  }

  /** The names differ in length or in one of these characters. */
  lemma Names()
    ensures |"match"| == 5 && |"depth"| == 5 && |"is_bool"| == 7 && |"is_array"| == 8 && |"no_extra"| == 8
    ensures |"is_string"| == 9 && |"is_number"| == 9 && |"is_object"| == 9 && |"not_match"| == 9 && |"not_equal"| == 9
    ensures |"ends_with"| == 9 && |"number_ge"| == 9 && |"number_gt"| == 9 && |"number_le"| == 9 && |"number_lt"| == 9
    ensures |"must_exist"| == 10 && |"starts_with"| == 11 && |"element_count"| == 13 && |"order_matters"| == 13
    ensures |"must_not_exist"| == 14 && |"element_no_extra"| == 16
    ensures "match"[0] == 'm' && "depth"[0] == 'd' && "is_array"[0] == 'i' && "no_extra"[0] == 'n'
    ensures "is_string"[3] == 's' && "is_number"[3] == 'n' && "is_object"[3] == 'o'
    ensures "not_match"[3] == '_' && "not_match"[4] == 'm' && "not_equal"[3] == '_' && "not_equal"[4] == 'e'
    ensures "ends_with"[3] == 's' && "ends_with"[0] == 'e' && "is_string"[0] == 'i'
    ensures "number_ge"[3] == 'b' && "number_gt"[3] == 'b' && "number_le"[3] == 'b' && "number_lt"[3] == 'b'
    ensures "number_ge"[7] == 'g' && "number_gt"[7] == 'g' && "number_le"[7] == 'l' && "number_lt"[7] == 'l'
    ensures "number_ge"[8] == 'e' && "number_gt"[8] == 't' && "number_le"[8] == 'e' && "number_lt"[8] == 't'
    ensures "element_count"[0] == 'e' && "order_matters"[0] == 'o'
  {
  }

  // ---------- one control ----------

  /** An object with one base key is compared as that key is. */
  lemma OneBase(lib: Library, l: Json, r: Json, a: string, c: Context)
    requires l.Obj? && r.Obj? && Bases(l.fields.Keys) == {a} && !c.NoExtra()
    ensures Compare(lib, l, r, c) == Field(lib, l, r, a)
  {
    assert Field(lib, l, r, a) == Malformed || Field(lib, l, r, a).Verdict?;
  }

  lemma BaseOfClean(a: string)
    requires CleanKey(ControlKey(a))
    ensures BaseOf(ControlKey(a)) == a && !IsControlKey(a) && a != ControlKey(a)
  {
    var b := BaseOf(ControlKey(a));
    assert IsControlKey(ControlKey(a));
    assert ControlKey(b)[..|b|] == b && ControlKey(a)[..|a|] == a;
    BaseIsNoControl(ControlKey(a));
  }

  /** A control alone passes the actual value through its checks. */
  lemma OnlyControl(lib: Library, a: string, fields: map<string, Json>, r: Json)
    requires CleanKey(ControlKey(a)) && r.Obj?
    ensures Compare(lib, Obj(map[ControlKey(a) := Obj(fields)]), r, EMPTY) ==
      if !AllValid(fields) then Malformed
      else Verdict(KeyChecks(lib, Lookup(r.fields, a), a in r.fields, MeaningOf(fields)))
  {
    var l := Obj(map[ControlKey(a) := Obj(fields)]);
    BaseOfClean(a);
    assert ControlKey(a) in l.fields && Bases(l.fields.Keys) == {a};
    OneBase(lib, l, r, a, EMPTY);
  }

  /** An object with nothing but one setting is clear, so what it matches holds of every run. */
  lemma OnlyIsClear(a: string, key: string, v: Json)
    requires CleanKey(ControlKey(a))
    ensures Clear(Only(a, key, v))
  {
    var fields := map[key := v];
    if Ambiguous(fields) {
      RangesAre(key);
      assert false;
    }
  }

  /** A control that is no object is an error, with or without a value for its key. */
  lemma NoControlObject(lib: Library, a: string, l: Json, r: Json)
    requires CleanKey(ControlKey(a)) && l.Obj? && r.Obj? && l.fields.Keys <= {a, ControlKey(a)}
    requires ControlKey(a) in l.fields && !l.fields[ControlKey(a)].Obj?
    ensures Compare(lib, l, r, EMPTY) == Malformed
  {
    BaseOfClean(a);
    assert Bases(l.fields.Keys) == {a};
    OneBase(lib, l, r, a, EMPTY);
  }

  lemma MeaningOfOne(key: string, v: Json)
    requires Accepts(KindOf(key), v)
    ensures AllValid(map[key := v]) && MeaningOf(map[key := v]) == Apply(EMPTY, key, KindOf(key), v)
  {
    var fields := map[key := v];
    assert [key][..0] == [];
    FillOrderIndependent(fields, [key]);
    assert Fill(fields, []) == Some(EMPTY);
    assert !Contradictory(fields);
  }

  lemma OneSetting(lib: Library, a: string, key: string, v: Json, r: Json)
    requires CleanKey(ControlKey(a)) && r.Obj?
    ensures Compare(lib, Only(a, key, v), r, EMPTY) ==
      if !Accepts(KindOf(key), v) then Malformed
      else Verdict(KeyChecks(lib, Lookup(r.fields, a), a in r.fields, Apply(EMPTY, key, KindOf(key), v)))
  {
    OnlyControl(lib, a, map[key := v], r);
    if Accepts(KindOf(key), v) {
      MeaningOfOne(key, v);
    } else {
      assert key in map[key := v];
    }
  }

  // ---------- number ranges ----------

  /** The actual value is a number that parses, and the bound parses. */
  predicate BothNumbers(lib: Library, a: string, r: Json, t: string)
    requires r.Obj?
  {
    a in r.fields && r.fields[a].Num? && lib.floatOf(r.fields[a].text).Some? && lib.floatOf(t).Some?
  }

  /** What a context with one number range asks for. */
  lemma RangeOnly(lib: Library, right: Json, ok: bool, key: string, t: string)
    requires key in RANGES
    ensures KeyChecks(lib, right, ok, Context(map[], {"is_number"}, map[key := t], None)) <==>
      && right.Num? && lib.floatOf(right.text).Some? && lib.floatOf(t).Some?
      && var x, y := lib.floatOf(right.text).value, lib.floatOf(t).value;
         if key == "number_ge" then x >= y else if key == "number_gt" then x > y
         else if key == "number_le" then x <= y else x < y
  {
    Names();
  }

  lemma RangeKinds()
    ensures forall k :: k in RANGES ==> KindOf(k).RangeKind?
    ensures "number_ge" != "number_gt" && "number_le" != "number_ge" && "number_le" != "number_gt"
    ensures "number_lt" != "number_ge" && "number_lt" != "number_gt" && "number_lt" != "number_le"
  {
    Names();
  }

  lemma NumberGe(lib: Library, a: string, v: Json, r: Json)
    requires CleanKey(ControlKey(a)) && r.Obj?
    ensures Compare(lib, Only(a, "number_ge", v), r, EMPTY) ==
      if !v.Num? then Malformed
      else Verdict(BothNumbers(lib, a, r, v.text) && lib.floatOf(r.fields[a].text).value >= lib.floatOf(v.text).value)
  {
    RangeKinds();
    OneSetting(lib, a, "number_ge", v, r);
    if v.Num? {
      RangeOnly(lib, Lookup(r.fields, a), a in r.fields, "number_ge", v.text);
    }
  }

  lemma NumberGt(lib: Library, a: string, v: Json, r: Json)
    requires CleanKey(ControlKey(a)) && r.Obj?
    ensures Compare(lib, Only(a, "number_gt", v), r, EMPTY) ==
      if !v.Num? then Malformed
      else Verdict(BothNumbers(lib, a, r, v.text) && lib.floatOf(r.fields[a].text).value > lib.floatOf(v.text).value)
  {
    RangeKinds();
    OneSetting(lib, a, "number_gt", v, r);
    if v.Num? {
      RangeOnly(lib, Lookup(r.fields, a), a in r.fields, "number_gt", v.text);
    }
  }

  lemma NumberLe(lib: Library, a: string, v: Json, r: Json)
    requires CleanKey(ControlKey(a)) && r.Obj?
    ensures Compare(lib, Only(a, "number_le", v), r, EMPTY) ==
      if !v.Num? then Malformed
      else Verdict(BothNumbers(lib, a, r, v.text) && lib.floatOf(r.fields[a].text).value <= lib.floatOf(v.text).value)
  {
    RangeKinds();
    OneSetting(lib, a, "number_le", v, r);
    if v.Num? {
      RangeOnly(lib, Lookup(r.fields, a), a in r.fields, "number_le", v.text);
    }
  }

  lemma NumberLt(lib: Library, a: string, v: Json, r: Json)
    requires CleanKey(ControlKey(a)) && r.Obj?
    ensures Compare(lib, Only(a, "number_lt", v), r, EMPTY) ==
      if !v.Num? then Malformed
      else Verdict(BothNumbers(lib, a, r, v.text) && lib.floatOf(r.fields[a].text).value < lib.floatOf(v.text).value)
  {
    RangeKinds();
    OneSetting(lib, a, "number_lt", v, r);
    if v.Num? {
      RangeOnly(lib, Lookup(r.fields, a), a in r.fields, "number_lt", v.text);
    }
  }

  // ---------- texts ----------

  lemma TextKinds()
    ensures KindOf("match").PatternKind? && KindOf("not_match").PatternKind?
    ensures KindOf("starts_with").AffixKind? && KindOf("ends_with").AffixKind? && KindOf("not_equal").NotEqualKind?
  {
    Names();
  }

  /** A context with one text. */
  function TextOf(key: string, t: string): Context {
    EMPTY.(texts := map[key := t])
  }

  lemma MatchOnly(lib: Library, right: Json, ok: bool, t: string)
    ensures KeyChecks(lib, right, ok, TextOf("match", t)) <==> lib.regexMatch(t, MatchText(lib, right)) == Some(true)
  {
    Names();
  }

  lemma NotMatchOnly(lib: Library, right: Json, ok: bool, t: string)
    ensures KeyChecks(lib, right, ok, TextOf("not_match", t)) <==> lib.regexMatch(t, MatchText(lib, right)) == Some(false)
  {
    Names();
  }

  lemma StartOnly(lib: Library, right: Json, ok: bool, t: string)
    ensures KeyChecks(lib, right, ok, TextOf("starts_with", t)) <==> right.Str? && t <= right.s
  {
    Names();
  }

  lemma EndOnly(lib: Library, right: Json, ok: bool, t: string)
    ensures KeyChecks(lib, right, ok, TextOf("ends_with", t)) <==>
      right.Str? && |t| <= |right.s| && right.s[|right.s| - |t|..] == t
  {
    Names();
  }

  lemma NotEqualOnly(lib: Library, right: Json, ok: bool, v: Json)
    requires !v.Obj?
    ensures KeyChecks(lib, right, ok, EMPTY.(notEqual := Some(v))) <==>
      if v.Arr? then !(right.Arr? && lib.marshal(right) == lib.marshal(v)) else right != v
  {
  }

  /** What a pattern is matched against: a string, or the printed value, which for a missing key is null. */
  function Printed(lib: Library, a: string, r: Json): string
    requires r.Obj?
  {
    if a !in r.fields then lib.sprint(Null)
    else if r.fields[a].Str? then r.fields[a].s
    else lib.sprint(r.fields[a])
  }

  lemma Match(lib: Library, a: string, v: Json, r: Json)
    requires CleanKey(ControlKey(a)) && r.Obj?
    ensures Compare(lib, Only(a, "match", v), r, EMPTY) ==
      if !v.Str? then Malformed else Verdict(lib.regexMatch(v.s, Printed(lib, a, r)) == Some(true))
  {
    TextKinds();
    OneSetting(lib, a, "match", v, r);
    if v.Str? {
      MatchOnly(lib, Lookup(r.fields, a), a in r.fields, v.s);
    }
  }

  /** A pattern that does not compile fails not_match too. */
  lemma NotMatch(lib: Library, a: string, v: Json, r: Json)
    requires CleanKey(ControlKey(a)) && r.Obj?
    ensures Compare(lib, Only(a, "not_match", v), r, EMPTY) ==
      if !v.Str? then Malformed else Verdict(lib.regexMatch(v.s, Printed(lib, a, r)) == Some(false))
  {
    TextKinds();
    OneSetting(lib, a, "not_match", v, r);
    if v.Str? {
      NotMatchOnly(lib, Lookup(r.fields, a), a in r.fields, v.s);
    }
  }

  lemma Affixes(affix: string, s: string)
    ensures affix <= s <==> exists rest :: s == affix + rest
    ensures |affix| <= |s| && s[|s| - |affix|..] == affix <==> exists start :: s == start + affix
  {
    if affix <= s {
      assert s == affix + s[|affix|..];
    }
    if |affix| <= |s| && s[|s| - |affix|..] == affix {
      assert s == s[..|s| - |affix|] + affix;
    }
  }

  lemma StartsWith(lib: Library, a: string, v: Json, r: Json)
    requires CleanKey(ControlKey(a)) && r.Obj?
    ensures Compare(lib, Only(a, "starts_with", v), r, EMPTY) ==
      if !v.Str? || v.s == "" then Malformed
      else Verdict(a in r.fields && r.fields[a].Str? && exists rest :: r.fields[a].s == v.s + rest)
  {
    TextKinds();
    OneSetting(lib, a, "starts_with", v, r);
    if v.Str? && v.s != "" {
      StartOnly(lib, Lookup(r.fields, a), a in r.fields, v.s);
      if a in r.fields && r.fields[a].Str? {
        Affixes(v.s, r.fields[a].s);
      }
    }
  }

  lemma EndsWith(lib: Library, a: string, v: Json, r: Json)
    requires CleanKey(ControlKey(a)) && r.Obj?
    ensures Compare(lib, Only(a, "ends_with", v), r, EMPTY) ==
      if !v.Str? || v.s == "" then Malformed
      else Verdict(a in r.fields && r.fields[a].Str? && exists start :: r.fields[a].s == start + v.s)
  {
    TextKinds();
    OneSetting(lib, a, "ends_with", v, r);
    if v.Str? && v.s != "" {
      EndOnly(lib, Lookup(r.fields, a), a in r.fields, v.s);
      if a in r.fields && r.fields[a].Str? {
        Affixes(v.s, r.fields[a].s);
      }
    }
  }

  // ---------- presence, counts and other values ----------

  lemma ElementCount(lib: Library, a: string, v: Json, r: Json)
    requires CleanKey(ControlKey(a)) && r.Obj?
    ensures Compare(lib, Only(a, "element_count", v), r, EMPTY) ==
      if !v.Num? || Strconv.ParseInt(v.text).None? then Malformed
      else Verdict(a in r.fields && r.fields[a].Arr? && |r.fields[a].elems| == Strconv.ParseInt(v.text).value)
  {
    Names();
    OneSetting(lib, a, "element_count", v, r);
  }

  lemma MustExistSetting(lib: Library, a: string, v: Json, r: Json)
    requires CleanKey(ControlKey(a)) && r.Obj?
    ensures Compare(lib, Only(a, "must_exist", v), r, EMPTY) ==
      if !v.Bool? then Malformed else Verdict(v.b ==> a in r.fields)
  {
    Names();
    OneSetting(lib, a, "must_exist", v, r);
  }

  lemma MustNotExist(lib: Library, a: string, v: Json, r: Json)
    requires CleanKey(ControlKey(a)) && r.Obj?
    ensures Compare(lib, Only(a, "must_not_exist", v), r, EMPTY) ==
      if !v.Bool? then Malformed else Verdict(v.b ==> a !in r.fields)
  {
    Names();
    OneSetting(lib, a, "must_not_exist", v, r);
  }

  /** Null asks for a value that is there and not null; arrays differ as they are marshalled. */
  lemma NotEqual(lib: Library, a: string, v: Json, r: Json)
    requires CleanKey(ControlKey(a)) && r.Obj?
    ensures Compare(lib, Only(a, "not_equal", v), r, EMPTY) ==
      if v.Obj? then Malformed
      else if v.Null? then Verdict(a in r.fields && r.fields[a] != Null)
      else if v.Arr? then Verdict(!(a in r.fields && r.fields[a].Arr? && lib.marshal(r.fields[a]) == lib.marshal(v)))
      else Verdict(!(a in r.fields && r.fields[a] == v))
  {
    TextKinds();
    OneSetting(lib, a, "not_equal", v, r);
    if !v.Obj? {
      NotEqualOnly(lib, Lookup(r.fields, a), a in r.fields, v);
    }
  }

  // ---------- types ----------

  lemma IsString(lib: Library, a: string, v: Json, r: Json)
    requires CleanKey(ControlKey(a)) && r.Obj?
    ensures Compare(lib, Only(a, "is_string", v), r, EMPTY) ==
      if !v.Bool? then Malformed else Verdict(v.b ==> a in r.fields && r.fields[a].Str?)
  {
    Names();
    OneSetting(lib, a, "is_string", v, r);
  }

  lemma IsNumber(lib: Library, a: string, v: Json, r: Json)
    requires CleanKey(ControlKey(a)) && r.Obj?
    ensures Compare(lib, Only(a, "is_number", v), r, EMPTY) ==
      if !v.Bool? then Malformed else Verdict(v.b ==> a in r.fields && r.fields[a].Num?)
  {
    Names();
    OneSetting(lib, a, "is_number", v, r);
  }

  lemma IsBool(lib: Library, a: string, v: Json, r: Json)
    requires CleanKey(ControlKey(a)) && r.Obj?
    ensures Compare(lib, Only(a, "is_bool", v), r, EMPTY) ==
      if !v.Bool? then Malformed else Verdict(v.b ==> a in r.fields && r.fields[a].Bool?)
  {
    Names();
    OneSetting(lib, a, "is_bool", v, r);
  }

  lemma IsArray(lib: Library, a: string, v: Json, r: Json)
    requires CleanKey(ControlKey(a)) && r.Obj?
    ensures Compare(lib, Only(a, "is_array", v), r, EMPTY) ==
      if !v.Bool? then Malformed else Verdict(v.b ==> a in r.fields && r.fields[a].Arr?)
  {
    Names();
    OneSetting(lib, a, "is_array", v, r);
  }

  lemma IsObject(lib: Library, a: string, v: Json, r: Json)
    requires CleanKey(ControlKey(a)) && r.Obj?
    ensures Compare(lib, Only(a, "is_object", v), r, EMPTY) ==
      if !v.Bool? then Malformed else Verdict(v.b ==> a in r.fields && r.fields[a].Obj?)
  {
    Names();
    OneSetting(lib, a, "is_object", v, r);
  }

  const TYPES := {"is_string", "is_number", "is_bool", "is_array", "is_object"}

  const RANGES := {"number_ge", "number_gt", "number_le", "number_lt"}

  // ---------- several settings ----------

  /** A context without the types it asks for. */
  function Untyped(c: Context): Context {
    c.(flags := c.flags - TYPES)
  }

  lemma UntypedChecks(lib: Library, right: Json, ok: bool, c: Context)
    ensures KeyChecks(lib, right, ok, c) <==> KindCheck(right, c) && KeyChecks(lib, right, ok, Untyped(c))
  {
    Names();
    assert "must_exist" !in TYPES && "must_not_exist" !in TYPES;
  }

  /** What two contexts ask for together. */
  function Merge(c: Context, d: Context): Context {
    Context(c.ints + d.ints, c.flags + d.flags, c.texts + d.texts, if d.notEqual.Some? then d.notEqual else c.notEqual)
  }

  predicate Apart(c: Context, d: Context) {
    c.ints.Keys !! d.ints.Keys && c.texts.Keys !! d.texts.Keys && (c.notEqual.None? || d.notEqual.None?)
  }

  lemma MergeText(c: Context, d: Context, key: string)
    requires Apart(c, d)
    ensures c.Text(key).None? || d.Text(key).None?
    ensures Merge(c, d).Text(key) == if d.Text(key).Some? then d.Text(key) else c.Text(key)
  {
  }

  lemma MergeRange(lib: Library, right: Json, c: Context, d: Context, key: string, holds: (real, real) -> bool)
    requires Apart(c, d)
    ensures RangeCheck(lib, right, Merge(c, d).Text(key), holds) <==>
      RangeCheck(lib, right, c.Text(key), holds) && RangeCheck(lib, right, d.Text(key), holds)
  {
    MergeText(c, d, key);
  }

  lemma MergeTexts(lib: Library, right: Json, c: Context, d: Context)
    requires Apart(c, d)
    ensures TextChecks(lib, right, Merge(c, d)) <==> TextChecks(lib, right, c) && TextChecks(lib, right, d)
  {
    MergeText(c, d, "match");
    MergeText(c, d, "not_match");
    MergeText(c, d, "starts_with");
    MergeText(c, d, "ends_with");
  }

  /** Without types, all that two contexts apart from each other ask for is asked by one or the other. */
  lemma MergeChecks(lib: Library, right: Json, ok: bool, c: Context, d: Context)
    requires Apart(c, d) && c.flags !! TYPES && d.flags !! TYPES
    ensures KeyChecks(lib, right, ok, Merge(c, d)) <==> KeyChecks(lib, right, ok, c) && KeyChecks(lib, right, ok, d)
  {
    MergeRange(lib, right, c, d, "number_ge", (x, y) => x >= y);
    MergeRange(lib, right, c, d, "number_gt", (x, y) => x > y);
    MergeRange(lib, right, c, d, "number_le", (x, y) => x <= y);
    MergeRange(lib, right, c, d, "number_lt", (x, y) => x < y);
    MergeTexts(lib, right, c, d);
    NoTypes(right, c);
    NoTypes(right, d);
    NoTypes(right, Merge(c, d));
  }

  lemma NoTypes(right: Json, c: Context)
    requires c.flags !! TYPES
    ensures KindCheck(right, c)
  {
    assert forall k :: k in c.flags ==> k !in TYPES;
  }

  /** What one setting asks for, types aside. */
  function Part(key: string, v: Json): Context
    requires Accepts(KindOf(key), v)
  {
    Untyped(Apply(EMPTY, key, KindOf(key), v))
  }

  lemma ApplyPart(c: Context, key: string, kind: Kind, v: Json)
    requires Accepts(kind, v) && key !in c.ints && key !in c.texts && key !in Untyped(c).flags
    requires kind.NotEqualKind? ==> c.notEqual.None?
    ensures Apart(Untyped(c), Untyped(Apply(EMPTY, key, kind, v)))
    ensures Untyped(Apply(c, key, kind, v)) == Merge(Untyped(c), Untyped(Apply(EMPTY, key, kind, v)))
  {
    var both, part := Untyped(Apply(c, key, kind, v)), Untyped(Apply(EMPTY, key, kind, v));
    assert "is_number" in TYPES;
    assert both.flags == Merge(Untyped(c), part).flags;
  }

  lemma NotYet(fields: map<string, Json>, done: set<string>, key: string)
    requires AllValid(fields) && done <= fields.Keys && key in fields && key !in done
    ensures var c := Meaning(fields, done); key !in c.ints && key !in c.texts && key !in Untyped(c).flags
    ensures KindOf(key).NotEqualKind? ==> Meaning(fields, done).notEqual.None?
  {
    assert "is_number" in TYPES;
  }

  lemma SameUntyped(c: Context, d: Context)
    requires Unnumbered(c) == Unnumbered(d)
    ensures Untyped(c) == Untyped(d)
  {
    assert "is_number" in TYPES;
    assert Untyped(c).flags == Unnumbered(c).flags - TYPES && Untyped(d).flags == Unnumbered(d).flags - TYPES;
  }

  lemma MeaningParts(fields: map<string, Json>, done: set<string>, key: string)
    requires AllValid(fields) && done <= fields.Keys && key in fields && key !in done
    ensures Apart(Untyped(Meaning(fields, done)), Part(key, fields[key]))
    ensures Untyped(Meaning(fields, done + {key})) == Merge(Untyped(Meaning(fields, done)), Part(key, fields[key]))
  {
    var c := Meaning(fields, done);
    ApplyUnnumbered(fields, done, key, c);
    SameUntyped(Apply(c, key, KindOf(key), fields[key]), Meaning(fields, done + {key}));
    NotYet(fields, done, key);
    ApplyPart(c, key, KindOf(key), fields[key]);
  }

  lemma {:induction false} AllParts(lib: Library, right: Json, ok: bool, fields: map<string, Json>, done: set<string>)
    requires AllValid(fields) && done <= fields.Keys
    ensures KeyChecks(lib, right, ok, Untyped(Meaning(fields, done))) <==>
      forall k :: k in done ==> KeyChecks(lib, right, ok, Part(k, fields[k]))
  {
    if done == {} {
      assert Untyped(Meaning(fields, done)) == EMPTY;
    } else {
      var key :| key in done;
      var rest := done - {key};
      AllParts(lib, right, ok, fields, rest);
      MeaningParts(fields, rest, key);
      assert done == rest + {key};
      MergeChecks(lib, right, ok, Untyped(Meaning(fields, rest)), Part(key, fields[key]));
    }
  }

  /** A number range asks for a number anyway, and no other setting that is no type asks for one. */
  lemma PartChecks(lib: Library, right: Json, ok: bool, key: string, v: Json)
    requires Accepts(KindOf(key), v)
    ensures key in TYPES ==> KeyChecks(lib, right, ok, Part(key, v))
    ensures key !in TYPES ==>
      (KeyChecks(lib, right, ok, Part(key, v)) <==> KeyChecks(lib, right, ok, Apply(EMPTY, key, KindOf(key), v)))
  {
    var c := Apply(EMPTY, key, KindOf(key), v);
    UntypedChecks(lib, right, ok, c);
    if key in TYPES {
      TypeFlags();
      assert KindOf(key).FlagKind? && Part(key, v) == EMPTY;
    } else if KindOf(key).RangeKind? {
      Names();
      assert c.flags == {"is_number"} && c.Text(key) == Some(v.text);
    }
  }

  lemma RangesAre(key: string)
    ensures KindOf(key).RangeKind? <==> key in RANGES
  {
    Names();
  }

  lemma TypeChain(right: Json, fields: map<string, Json>)
    requires AllValid(fields)
    ensures KindCheck(right, MeaningOf(fields)) <==>
      if On(fields, "is_string") then right.Str?
      else if On(fields, "is_number") || (exists k :: k in fields && k in RANGES) then right.Num?
      else if On(fields, "is_bool") then right.Bool?
      else if On(fields, "is_array") then right.Arr?
      else if On(fields, "is_object") then right.Obj?
      else true
  {
    MeaningTypes(fields);
    forall k ensures KindOf(k).RangeKind? <==> k in RANGES {
      RangesAre(k);
    }
    NumberMeaning(fields);
  }

  lemma NumberMeaning(fields: map<string, Json>)
    requires AllValid(fields)
    ensures "is_number" in MeaningOf(fields).flags <==> On(fields, "is_number") || HasRange(fields, fields.Keys)
  {
    Names();
    assert KindOf("is_number").FlagKind?;
  }

  lemma PartsSeparately(lib: Library, a: string, fields: map<string, Json>, r: Json)
    requires CleanKey(ControlKey(a)) && r.Obj? && AllValid(fields)
    ensures KeyChecks(lib, Lookup(r.fields, a), a in r.fields, Untyped(MeaningOf(fields))) <==>
      forall k :: k in fields && k !in TYPES ==> Compare(lib, Only(a, k, fields[k]), r, EMPTY) == YES
  {
    var right, ok := Lookup(r.fields, a), a in r.fields;
    AllParts(lib, right, ok, fields, fields.Keys);
    forall k | k in fields
      ensures k in TYPES ==> KeyChecks(lib, right, ok, Part(k, fields[k]))
      ensures k !in TYPES ==>
        (KeyChecks(lib, right, ok, Part(k, fields[k])) <==> Compare(lib, Only(a, k, fields[k]), r, EMPTY) == YES)
    {
      PartChecks(lib, right, ok, k, fields[k]);
      OneSetting(lib, a, k, fields[k], r);
    }
  }

  /**
   A control with any settings is an error iff one of them is. Otherwise the value passes iff it passes
   each setting alone, types aside; of the types only the first one asked for counts, and a number
   range asks for a number.
   */
  lemma SettingsTogether(lib: Library, a: string, fields: map<string, Json>, r: Json)
    requires CleanKey(ControlKey(a)) && r.Obj?
    ensures Compare(lib, Obj(map[ControlKey(a) := Obj(fields)]), r, EMPTY) ==
      if exists k :: k in fields && Compare(lib, Only(a, k, fields[k]), r, EMPTY) == Malformed then Malformed
      else Verdict(
        && (forall k :: k in fields && k !in TYPES ==> Compare(lib, Only(a, k, fields[k]), r, EMPTY) == YES)
        && if On(fields, "is_string") then a in r.fields && r.fields[a].Str?
           else if On(fields, "is_number") || (exists k :: k in fields && k in RANGES) then a in r.fields && r.fields[a].Num?
           else if On(fields, "is_bool") then a in r.fields && r.fields[a].Bool?
           else if On(fields, "is_array") then a in r.fields && r.fields[a].Arr?
           else if On(fields, "is_object") then a in r.fields && r.fields[a].Obj?
           else true)
  {
    OnlyControl(lib, a, fields, r);
    ErrorsSeparately(lib, a, fields, r);
    if AllValid(fields) {
      var right, ok := Lookup(r.fields, a), a in r.fields;
      UntypedChecks(lib, right, ok, MeaningOf(fields));
      TypeChain(right, fields);
      PartsSeparately(lib, a, fields, r);
    }
  }

  lemma ErrorsSeparately(lib: Library, a: string, fields: map<string, Json>, r: Json)
    requires CleanKey(ControlKey(a)) && r.Obj?
    ensures AllValid(fields) <==> forall k :: k in fields ==> Compare(lib, Only(a, k, fields[k]), r, EMPTY) != Malformed
  {
    forall k | k in fields
      ensures Accepts(KindOf(k), fields[k]) <==> Compare(lib, Only(a, k, fields[k]), r, EMPTY) != Malformed
    {
      OneSetting(lib, a, k, fields[k], r);
    }
  }

  // ---------- settings for the value given ----------

  /** The settings that say how a value given for the key is compared. */
  const LAYOUT := {"depth", "order_matters", "no_extra", "element_no_extra"}

  const CHECKS := {"must_exist", "must_not_exist", "element_count", "is_string", "is_number", "is_bool", "is_array",
                   "is_object", "number_ge", "number_gt", "number_le", "number_lt", "match", "not_match", "starts_with",
                   "ends_with", "not_equal"}

  lemma LayoutKinds()
    ensures KindOf("depth").IntKind? && KindOf("order_matters").FlagKind?
    ensures KindOf("no_extra").FlagKind? && KindOf("element_no_extra").FlagKind?
  {
    Names();
  }

  /** A setting that is none of these is an error. */
  lemma UnknownSetting(lib: Library, a: string, key: string, v: Json, r: Json)
    requires CleanKey(ControlKey(a)) && r.Obj? && key !in LAYOUT && key !in CHECKS
    ensures Compare(lib, Only(a, key, v), r, EMPTY) == Malformed
  {
    OneSetting(lib, a, key, v, r);
  }

  /** What these settings come to in a context; a depth that is not set is 0. */
  lemma LayoutContext(fields: map<string, Json>)
    requires AllValid(fields)
    ensures var c := MeaningOf(fields);
      && c.Depth() == (if "depth" in fields then Strconv.ParseInt(fields["depth"].text).value else 0)
      && (c.OrderMatters() <==> "order_matters" in fields && fields["order_matters"] == Bool(true))
      && (c.NoExtra() <==> "no_extra" in fields && fields["no_extra"] == Bool(true))
      && (c.ElementNoExtra() <==> "element_no_extra" in fields && fields["element_no_extra"] == Bool(true))
  {
    LayoutKinds();
    Names();
    FlagMeaning(fields, "order_matters");
    FlagMeaning(fields, "no_extra");
    FlagMeaning(fields, "element_no_extra");
  }

  /** The expected object {"a": v, "a:control": fields}. */
  function Given(a: string, v: Json, fields: map<string, Json>): Json {
    Obj(map[a := v, ControlKey(a) := Obj(fields)])
  }

  /** Asking for the key changes nothing in how its value is compared. */
  lemma MustExistCompare(lib: Library, l: Json, r: Json, c: Context)
    ensures Compare(lib, l, r, c.MustExist()) == Compare(lib, l, r, c)
  {
    Names();
    var d := c.MustExist();
    assert d.OrderMatters() == c.OrderMatters() && d.NoExtra() == c.NoExtra() && d.ElementNoExtra() == c.ElementNoExtra();
    assert d.Depth() == c.Depth();
    assert Next(d) == Next(c);
  }

  lemma LayoutMeaning(fields: map<string, Json>)
    requires AllValid(fields) && fields.Keys <= LAYOUT
    ensures var c := MeaningOf(fields); c.texts == map[] && c.notEqual == None && c.flags <= LAYOUT && c.ints.Keys <= LAYOUT
  {
    Names();
    LayoutKinds();
    assert forall k :: k in fields ==> KindOf(k).IntKind? || KindOf(k).FlagKind?;
    assert !HasRange(fields, fields.Keys);
  }

  lemma NothingAsked(lib: Library, right: Json, ok: bool, c: Context)
    requires c.texts == map[] && c.notEqual == None && c.flags <= LAYOUT && c.ints.Keys <= LAYOUT
    ensures KeyChecks(lib, right, ok, c)
  {
    Names();
  }

  /** A value given with a control must be there, pass the control, and match in the context it comes to. */
  lemma GivenTogether(lib: Library, a: string, v: Json, fields: map<string, Json>, r: Json)
    requires CleanKey(ControlKey(a)) && r.Obj?
    ensures !AllValid(fields) ==> Compare(lib, Given(a, v, fields), r, EMPTY) == Malformed
    ensures AllValid(fields) ==>
      Compare(lib, Given(a, v, fields), r, EMPTY) ==
        if a in r.fields && Compare(lib, Obj(map[ControlKey(a) := Obj(fields)]), r, EMPTY) == YES
        then Compare(lib, v, r.fields[a], MeaningOf(fields))
        else Verdict(false)
  {
    var l := Given(a, v, fields);
    BaseOfClean(a);
    assert a in l.fields && ControlKey(a) in l.fields && Bases(l.fields.Keys) == {a};
    OneBase(lib, l, r, a, EMPTY);
    OnlyControl(lib, a, fields, r);
    if AllValid(fields) {
      MustExistChecks(lib, Lookup(r.fields, a), a in r.fields, MeaningOf(fields));
      MustExistCompare(lib, v, Lookup(r.fields, a), MeaningOf(fields));
    }
  }

  /** A layout alone asks nothing of the value. */
  lemma GivenUnder(lib: Library, a: string, v: Json, fields: map<string, Json>, r: Json)
    requires CleanKey(ControlKey(a)) && r.Obj? && AllValid(fields) && fields.Keys <= LAYOUT
    ensures Compare(lib, Given(a, v, fields), r, EMPTY) ==
      if a in r.fields then Compare(lib, v, r.fields[a], MeaningOf(fields)) else Verdict(false)
  {
    GivenTogether(lib, a, v, fields, r);
    OnlyControl(lib, a, fields, r);
    LayoutMeaning(fields);
    NothingAsked(lib, Lookup(r.fields, a), a in r.fields, MeaningOf(fields));
  }

  /** order_matters without a depth: this array in order, its elements as without any control. */
  lemma OrderMattersOnce(lib: Library, a: string, v: Json, r: Json)
    requires CleanKey(ControlKey(a)) && v.Arr? && WellFormed(v) && r.Obj? && a in r.fields && r.fields[a].Arr?
    ensures Compare(lib, Given(a, v, map["order_matters" := Bool(true)]), r, EMPTY) == YES <==>
      exists f :: Assigns(lib, f, v, r.fields[a], EMPTY) && Increasing(f)
  {
    var fields: map<string, Json> := map["order_matters" := Bool(true)];
    LayoutKinds();
    Names();
    assert fields["order_matters"] == Bool(true) && AllValid(fields);
    GivenUnder(lib, a, v, fields, r);
    LayoutContext(fields);
    var c := MeaningOf(fields);
    OrderedArrayExact(lib, v, r.fields[a], c);
    NextSettings(c);
    SameAssigns(lib, v, r.fields[a], Next(c), EMPTY);
  }

  lemma SameAssigns(lib: Library, l: Json, r: Json, c: Context, d: Context)
    requires l.Arr? && r.Arr? && Lenient(c) && Lenient(d)
    ensures forall f :: Assigns(lib, f, l, r, c) <==> Assigns(lib, f, l, r, d)
  {
    LenientPairs(lib, l, r, c, d);
    AssignsIsMatches(lib, l, r, c);
    AssignsIsMatches(lib, l, r, d);
  }

  // ---------- several keys ----------

  /** The value and the control that an expected object gives for one key. */
  ghost function Sub(l: Json, b: string): Json
    requires l.Obj?
  {
    Obj(map k | k in l.fields && (k == b || k == ControlKey(b)) :: l.fields[k])
  }

  lemma SubField(lib: Library, l: Json, r: Json, b: string)
    requires l.Obj? && r.Obj? && CleanObject(l.fields) && b in Bases(l.fields.Keys)
    ensures Compare(lib, Sub(l, b), r, EMPTY) == Field(lib, l, r, b)
  {
    var k :| k in l.fields && BaseOf(k) == b;
    CleanPair(l.fields, k);
    assert k in Sub(l, b).fields;
    assert Bases(Sub(l, b).fields.Keys) == {b};
    OneBase(lib, Sub(l, b), r, b, EMPTY);
    assert ControlOf(Sub(l, b).fields, b) == ControlOf(l.fields, b);
  }

  /** An object matches iff each key matches with its control alone; no_extra allows no other keys. */
  lemma KeysSeparately(lib: Library, l: Json, r: Json, c: Context)
    requires l.Obj? && r.Obj? && CleanObject(l.fields)
    ensures Compare(lib, l, r, c) ==
      if exists b :: b in Bases(l.fields.Keys) && Compare(lib, Sub(l, b), r, EMPTY) == Malformed then Malformed
      else Verdict(
        && (forall b :: b in Bases(l.fields.Keys) ==> Compare(lib, Sub(l, b), r, EMPTY) == YES)
        && (c.NoExtra() ==> r.fields.Keys <= Bases(l.fields.Keys)))
  {
    forall b | b in Bases(l.fields.Keys) ensures Compare(lib, Sub(l, b), r, EMPTY) == Field(lib, l, r, b) {
      SubField(lib, l, r, b);
    }
    assert Compare(lib, l, r, c) == ObjectVerdict(lib, l, r, c.NoExtra());
  }

  // ---------- values without controls ----------

  /** Scalars are compared as they are, and nothing matches a value of another kind. */
  lemma Kinds(lib: Library, l: Json, r: Json, c: Context)
    ensures IsScalar(l) ==> Compare(lib, l, r, c) == Verdict(l == r)
    ensures (l.Arr? && !r.Arr?) || (l.Obj? && !r.Obj?) ==> Compare(lib, l, r, c) == Verdict(false)
  {
  }

  /** Without controls every key given must be there with a matching value; no_extra allows no others. */
  lemma PlainObject(lib: Library, l: Json, r: Json, c: Context)
    requires l.Obj? && r.Obj? && forall k :: k in l.fields ==> !IsControlKey(k)
    ensures Compare(lib, l, r, c) ==
      if exists k :: k in l.fields && k in r.fields && Compare(lib, l.fields[k], r.fields[k], EMPTY) == Malformed then Malformed
      else Verdict(
        && (forall k :: k in l.fields ==> k in r.fields && Compare(lib, l.fields[k], r.fields[k], EMPTY) == YES)
        && (c.NoExtra() ==> r.fields.Keys <= l.fields.Keys))
  {
    forall b | b in l.fields ensures Field(lib, l, r, b) ==
      if b in r.fields then Compare(lib, l.fields[b], r.fields[b], EMPTY) else Verdict(false)
    {
      PlainField(lib, l, r, b);
    }
    assert Bases(l.fields.Keys) == l.fields.Keys by {
      assert forall k :: k in l.fields ==> BaseOf(k) == k;
    }
  }

  lemma PlainField(lib: Library, l: Json, r: Json, b: string)
    requires l.Obj? && r.Obj? && b in l.fields && forall k :: k in l.fields ==> !IsControlKey(k)
    ensures Field(lib, l, r, b) == if b in r.fields then Compare(lib, l.fields[b], r.fields[b], EMPTY) else Verdict(false)
  {
    assert IsControlKey(ControlKey(b));
    PlainChecks(lib, Lookup(r.fields, b));
    Names();
    MustExistCompare(lib, l.fields[b], Lookup(r.fields, b), EMPTY);
  }
}
