/** The normaliser that turns a JSON Schema into the native strict form: closed objects,
    every property required, optional properties nullable. */
module SchemaNormalizer {
  import opened Json
  import Decimal

  type Members = map<string, Json>

  // ---- constants and enumerations ----

  predicate Integral(n: Number) {
    var r := Decimal.Denotes(n);
    r == r.Floor as real
  }

  /** native_json_type: the type name of a primitive, nothing for arrays and objects. */
  function Kind(v: Json): Option<string> {
    match v
    case Null => Some("null")
    case Bool(_) => Some("boolean")
    case Num(n) => Some(if Integral(n) then "integer" else "number")
    case Str(_) => Some("string")
    case Arr(_) => None
    case Obj(_) => None
  }

  predicate PrimitiveEqual(a: Json, b: Json) {
    match (a, b)
    case (Null, Null) => true
    case (Bool(x), Bool(y)) => x == y
    case (Str(x), Str(y)) => x == y
    case (Num(x), Num(y)) => Decimal.NumbersEqual(x, y)
    case _ => false
  }

  predicate PairCompatible(declared: string, actual: string) {
    declared == actual || (declared == "number" && actual == "integer")
  }

  predicate TypeIncludes(t: Json, expected: string) {
    match t
    case Str(kind) => PairCompatible(kind, expected)
    case Arr(types) => exists i | 0 <= i < |types| :: types[i].Str? && PairCompatible(types[i].s, expected)
    case _ => false
  }

  predicate EnumContains(m: Members, constant: Json) {
    "enum" in m ==>
      m["enum"].Arr? && exists i | 0 <= i < |m["enum"].items| :: PrimitiveEqual(m["enum"].items[i], constant)
  }

  predicate TypeFits(m: Members, kind: string) {
    "type" in m ==> TypeIncludes(m["type"], kind)
  }

  function WithType(m: Members, kind: string): Members {
    if "type" in m then m else m["type" := Str(kind)]
  }

  /** normalize_native_const_type */
  function NormalizeConst(m: Members): Option<Members> {
    if "const" !in m then Some(m)
    else
      var kind :- Kind(m["const"]);
      if !EnumContains(m, m["const"]) || !TypeFits(m, kind) then None
      else Some(WithType(m, kind))
  }

  // ---- nullable properties ----

  predicate MentionsNull(t: Json) {
    t == Str("null") || (t.Arr? && Str("null") in t.items)
  }

  function WithNullEnum(m: Members): Members {
    if "enum" in m && m["enum"].Arr? && Null !in m["enum"].items
    then m["enum" := Arr(m["enum"].items + [Null])]
    else m
  }

  function AddNull(t: Json): Json {
    match t
    case Str(kind) => Arr([Str(kind), Str("null")])
    case Arr(types) => if Str("null") in types then t else Arr(types + [Str("null")])
    case _ => t
  }

  predicate HasNullVariant(m: Members) {
    && "anyOf" in m && m["anyOf"].Arr?
    && exists i | 0 <= i < |m["anyOf"].items| ::
         var variant := m["anyOf"].items[i];
         variant.Obj? && "type" in variant.members && variant.members["type"] == Str("null")
  }

  function Wrap(p: Json): Json {
    Obj(map["anyOf" := Arr([p, Obj(map["type" := Str("null")])])])
  }

  function ConstToEnum(m: Members): Option<Members> {
    if "const" !in m then Some(m)
    else
      var constant, rest := m["const"], m - {"const"};
      var kind :- Kind(constant);
      if !EnumContains(rest, constant) || !TypeFits(rest, kind) then None
      else Some(WithType(rest, kind)["enum" := Arr(if kind == "null" then [constant] else [constant, Null])])
  }

  function NullableMembers(m: Members): Json {
    if "type" in m && MentionsNull(m["type"]) then Obj(WithNullEnum(m))
    else if HasNullVariant(m) then Obj(m)
    else if "type" in m then Obj(WithNullEnum(m["type" := AddNull(m["type"])]))
    else Wrap(Obj(m))
  }

  /** make_native_property_nullable */
  function MakeNullable(p: Json): Option<Json> {
    if p.Obj? then
      var m :- ConstToEnum(p.members);
      Some(NullableMembers(m))
    else Some(Wrap(p))
  }

  // ---- closing ----

  predicate IsObjectSchema(m: Members) {
    || ("type" in m && (m["type"] == Str("object") || (m["type"].Arr? && Str("object") in m["type"].items)))
    || "properties" in m
    || "required" in m
  }

  function Properties(m: Members): Members {
    if "properties" in m && m["properties"].Obj? then m["properties"].members else map[]
  }

  /** The names under `required`; nothing when it is not an array of strings. */
  function RequiredNames(m: Members): Option<set<string>> {
    if "required" !in m then Some({})
    else if !m["required"].Arr? then None
    else
      var items := m["required"].items;
      if exists i | 0 <= i < |items| :: !items[i].Str? then None
      else Some(set i | 0 <= i < |items| :: items[i].s)
  }

  function NullableProperty(p: Json, required: bool): Option<Json> {
    if required then Some(p) else MakeNullable(p)
  }

  function NullableProperties(properties: Members, required: set<string>): Option<Members> {
    if exists k | k in properties :: NullableProperty(properties[k], k in required).None? then None
    else Some(map k | k in properties :: NullableProperty(properties[k], k in required).value)
  }

  function Names(names: seq<string>): Json {
    Arr(seq(|names|, i requires 0 <= i < |names| => Str(names[i])))
  }

  /** What an object schema becomes before its children are visited. */
  function CloseObject(m: Members): Option<Members> {
    if !IsObjectSchema(m) then Some(m)
    else if "additionalProperties" in m && m["additionalProperties"] != Bool(false) then None
    else
      var required :- RequiredNames(m);
      if !(required <= Properties(m).Keys) then None
      else
        var properties :- NullableProperties(Properties(m), required);
        var closed := m["additionalProperties" := Bool(false)];
        var declared :=
          if "properties" in m && m["properties"].Obj? then closed["properties" := Obj(properties)] else closed;
        Some(declared["required" := Names(SortedKeys(properties.Keys))])
  }

  function Rewrite(m: Members): Option<Members> {
    var typed :- NormalizeConst(m);
    CloseObject(typed)
  }

  /** close_native_object_schemas: the whole rewriting, absent on an error. */
  function Close(s: Json): Option<Json>
    decreases Weight(s)
  {
    match s
    case Obj(m) =>
      var rewritten :- Rewrite(m);
      RewriteShrinks(m);
      if exists k | k in rewritten :: Close(rewritten[k]).None? then None
      else Some(Obj(map k | k in rewritten :: Close(rewritten[k]).value))
    case Arr(items) =>
      ItemsShrink(items);
      if exists i | 0 <= i < |items| :: Close(items[i]).None? then None
      else Some(Arr(seq(|items|, i requires 0 <= i < |items| => Close(items[i]).value)))
    case _ => Some(s)
  }

  // ---- the recursion terminates: nullable wrappers grow the tree by less than a level ----

  ghost function Max(a: nat, b: nat): nat {
    if a < b then b else a
  }

  ghost function Weight(s: Json): nat
    decreases s, 1, 0
  {
    match s
    case Obj(m) => Base(m) + WeightMembers(s, m.Keys)
    case Arr(items) => 1 + WeightItems(items)
    case _ => 0
  }

  ghost function Base(m: Members): nat {
    if "properties" in m then 9 else 3
  }

  ghost function WeightItems(items: seq<Json>): nat
    decreases items, 0, 0
  {
    if items == [] then 0 else Max(Weight(items[0]), WeightItems(items[1..]))
  }

  ghost function WeightMembers(s: Json, keys: set<string>): nat
    requires s.Obj? && keys <= s.members.Keys
    decreases s, 0, |keys|
  {
    if keys == {} then 0
    else var k := Least(keys); Max(Weight(s.members[k]), WeightMembers(s, keys - {k}))
  }

  lemma {:induction false} MembersBound(s: Json, keys: set<string>, bound: nat)
    requires s.Obj? && keys <= s.members.Keys
    ensures WeightMembers(s, keys) <= bound <==> forall k | k in keys :: Weight(s.members[k]) <= bound
    decreases keys
  {
    if keys != {} {
      var k := Least(keys);
      MembersBound(s, keys - {k}, bound);
    }
  }

  lemma {:induction false} ItemsBound(items: seq<Json>, bound: nat)
    ensures WeightItems(items) <= bound <==> forall i | 0 <= i < |items| :: Weight(items[i]) <= bound
  {
    if items != [] {
      ItemsBound(items[1..], bound);
      assert forall i | 1 <= i < |items| :: items[i] == items[1..][i - 1];
    }
  }

  lemma ItemsShrink(items: seq<Json>)
    ensures forall i | 0 <= i < |items| :: Weight(items[i]) < Weight(Arr(items))
  {
    ItemsBound(items, WeightItems(items));
  }

  lemma MembersShrink(m: Members)
    ensures forall k | k in m :: Weight(m[k]) + Base(m) <= Weight(Obj(m))
  {
    MembersBound(Obj(m), m.Keys, WeightMembers(Obj(m), m.Keys));
  }

  lemma MembersGrow(m: Members, bound: nat)
    requires forall k | k in m :: Weight(m[k]) <= bound
    ensures Weight(Obj(m)) <= Base(m) + bound
  {
    MembersBound(Obj(m), m.Keys, bound);
  }

  ghost predicate Bounded(m: Members, bound: nat) {
    forall k | k in m :: Weight(m[k]) <= bound
  }

  lemma FlatWeight(items: seq<Json>)
    requires forall i | 0 <= i < |items| :: Weight(items[i]) == 0
    ensures Weight(Arr(items)) == 1
  {
    ItemsBound(items, 0);
  }

  lemma AppendNullWeight(items: seq<Json>)
    ensures Weight(Arr(items + [Str("null")])) == Weight(Arr(items + [Null])) == Weight(Arr(items))
  {
    var w := WeightItems(items);
    forall extra | extra == Null || extra == Str("null") ensures WeightItems(items + [extra]) == w {
      ItemsBound(items, w);
      ItemsBound(items + [extra], w);
      var v := WeightItems(items + [extra]);
      ItemsBound(items + [extra], v);
      assert forall i | 0 <= i < |items| :: (items + [extra])[i] == items[i];
      ItemsBound(items, v);
    }
  }

  lemma WithNullEnumWeight(m: Members, bound: nat)
    requires Bounded(m, bound)
    ensures Bounded(WithNullEnum(m), bound) && Base(WithNullEnum(m)) == Base(m)
  {
    if "enum" in m && m["enum"].Arr? { AppendNullWeight(m["enum"].items); }
  }

  lemma AddNullWeight(t: Json)
    ensures Weight(AddNull(t)) <= Max(Weight(t), 1)
  {
    match t
    case Str(kind) => FlatWeight([Str(kind), Str("null")]);
    case Arr(types) => AppendNullWeight(types);
    case _ =>
  }

  lemma ConstToEnumWeight(m: Members, bound: nat)
    requires Bounded(m, bound) && bound >= 1
    ensures ConstToEnum(m).Some? ==> Bounded(ConstToEnum(m).value, bound) && Base(ConstToEnum(m).value) == Base(m)
  {
    if "const" in m && ConstToEnum(m).Some? {
      FlatWeight([m["const"]]);
      FlatWeight([m["const"], Null]);
    }
  }

  lemma WrapWeight(p: Json, bound: nat)
    requires Weight(p) <= bound && bound >= 3
    ensures Weight(Wrap(p)) <= bound + 4
  {
    var nulls := Obj(map["type" := Str("null")]);
    MembersGrow(nulls.members, 0);
    ItemsBound([p, nulls], bound);
    MembersGrow(Wrap(p).members, bound + 1);
  }

  lemma NullableMembersWeight(m: Members, bound: nat)
    requires Bounded(m, bound) && bound >= 1
    ensures Weight(NullableMembers(m)) <= Base(m) + bound + 4
  {
    MembersGrow(m, bound);
    WithNullEnumWeight(m, bound);
    MembersGrow(WithNullEnum(m), bound);
    if "type" in m {
      AddNullWeight(m["type"]);
      var typed := m["type" := AddNull(m["type"])];
      WithNullEnumWeight(typed, bound);
      MembersGrow(WithNullEnum(typed), bound);
    }
    WrapWeight(Obj(m), Base(m) + bound);
  }

  lemma NullableWeight(p: Json)
    requires MakeNullable(p).Some?
    ensures Weight(MakeNullable(p).value) <= Max(Weight(p), 3) + 5
  {
    if p.Obj? {
      var bound := Max(Weight(p) - Base(p.members), 1);
      MembersShrink(p.members);
      ConstToEnumWeight(p.members, bound);
      NullableMembersWeight(ConstToEnum(p.members).value, bound);
    } else {
      WrapWeight(p, Max(Weight(p), 3));
    }
  }

  lemma PropertiesWeight(properties: Members, required: set<string>)
    requires NullableProperties(properties, required).Some?
    ensures Weight(Obj(NullableProperties(properties, required).value)) < 9 + Weight(Obj(properties))
  {
    var nullable := NullableProperties(properties, required).value;
    MembersShrink(properties);
    var bound := Max(Weight(Obj(properties)) - Base(properties), 3) + 5;
    forall k | k in nullable ensures Weight(nullable[k]) <= bound {
      if k !in required { NullableWeight(properties[k]); }
    }
    MembersGrow(nullable, bound);
  }

  lemma TypedShrinks(m: Members)
    requires NormalizeConst(m).Some?
    ensures var typed := NormalizeConst(m).value;
      && Base(typed) == Base(m) && Bounded(typed, Weight(Obj(m)) - Base(m))
  {
    MembersShrink(m);
  }

  lemma ClosedShrinks(typed: Members, bound: nat)
    requires CloseObject(typed).Some? && Bounded(typed, bound)
    ensures Bounded(CloseObject(typed).value, bound + Base(typed) - 1)
  {
    hide NullableProperties;
    var out := CloseObject(typed).value;
    if IsObjectSchema(typed) {
      FlatWeight(out["required"].items);
      if "properties" in typed && typed["properties"].Obj? {
        PropertiesWeight(Properties(typed), RequiredNames(typed).value);
      }
    }
  }

  /** Every child that is visited is lighter than the schema the visit started from. */
  lemma RewriteShrinks(m: Members)
    requires Rewrite(m).Some?
    ensures forall k | k in Rewrite(m).value :: Weight(Rewrite(m).value[k]) < Weight(Obj(m))
  {
    hide NormalizeConst, CloseObject;
    TypedShrinks(m);
    ClosedShrinks(NormalizeConst(m).value, Weight(Obj(m)) - Base(m));
  }

  // ---- the rewriting in place ----

  method MakeNativePropertyNullable(schema: Json) returns (r: Option<Json>)
    ensures r == MakeNullable(schema)
  {
    if schema.Obj? {
      var members := schema.members;
      if "const" in members {
        var constant := members["const"];
        members := members - {"const"};
        var kind := Kind(constant);
        if kind.None? || !EnumContains(members, constant) || !TypeFits(members, kind.value) { return None; }
        members := WithType(members, kind.value);
        members := members["enum" := Arr(if kind.value == "null" then [constant] else [constant, Null])];
      }
      if "type" in members && MentionsNull(members["type"]) {
        members := WithNullEnum(members);
        return Some(Obj(members));
      }
      if HasNullVariant(members) { return Some(Obj(members)); }
      if "type" in members {
        members := members["type" := AddNull(members["type"])];
        members := WithNullEnum(members);
        return Some(Obj(members));
      }
    }
    r := Some(Wrap(schema));
  }

  method MakePropertiesNullable(original: Members, required: set<string>) returns (r: Option<Members>)
    ensures r == NullableProperties(original, required)
  {
    hide NullableProperty, MakeNullable;
    var properties, names := original, original.Keys;
    while names != {}
      invariant names <= original.Keys == properties.Keys
      invariant forall k | k in original && k !in names ::
        NullableProperty(original[k], k in required) == Some(properties[k])
      invariant forall k | k in names :: properties[k] == original[k]
    {
      var name := Least(names);
      RequiredOrNullable(original[name], name in required);
      if name !in required {
        var nullable := MakeNativePropertyNullable(properties[name]);
        if nullable.None? {
          assert NullableProperty(original[name], name in required).None?;
          return None;
        }
        properties := properties[name := nullable.value];
      }
      names := names - {name};
    }
    assert properties == map k | k in original :: NullableProperty(original[k], k in required).value;
    r := Some(properties);
  }

  lemma RequiredOrNullable(p: Json, required: bool)
    ensures NullableProperty(p, required) == if required then Some(p) else MakeNullable(p)
  {
  }

  method CloseObjectSchema(m: Members) returns (r: Option<Members>)
    ensures r == CloseObject(m)
  {
    hide NullableProperty, RequiredNames;
    var members := m;
    if IsObjectSchema(members) {
      if "additionalProperties" in members && members["additionalProperties"] != Bool(false) { return None; }
      members := members["additionalProperties" := Bool(false)];
      var names, required := Properties(m).Keys, RequiredNames(m);
      if required.None? || !(required.value <= names) { return None; }
      var properties := MakePropertiesNullable(Properties(m), required.value);
      if properties.None? { return None; }
      if "properties" in m && m["properties"].Obj? { members := members["properties" := Obj(properties.value)]; }
      members := members["required" := Names(SortedKeys(names))];
      assert properties.value.Keys == names;
    }
    r := Some(members);
  }

  method CloseNativeObjectSchemas(schema: Json) returns (r: Option<Json>)
    ensures r == Close(schema)
    decreases Weight(schema), 1
  {
    match schema
    case Obj(m) =>
      var members := NormalizeConst(m);
      if members.None? { return None; }
      members := CloseObjectSchema(members.value);
      if members.None? { return None; }
      r := CloseChildren(m, members.value);
    case Arr(items) =>
      r := CloseItems(items);
    case _ =>
      r := Some(schema);
  }

  method CloseChildren(ghost m: Members, original: Members) returns (r: Option<Json>)
    requires Rewrite(m) == Some(original)
    ensures r == Close(Obj(m))
    decreases Weight(Obj(m)), 0
  {
    hide Close, Rewrite, Weight;
    RewriteShrinks(m);
    var members, names := original, original.Keys;
    while names != {}
      invariant names <= original.Keys == members.Keys
      invariant forall k | k in original && k !in names :: Close(original[k]) == Some(members[k])
      invariant forall k | k in names :: members[k] == original[k]
    {
      var name := Least(names);
      var child := CloseNativeObjectSchemas(members[name]);
      if child.None? {
        CloseFails(m, original, name);
        return None;
      }
      members := members[name := child.value];
      names := names - {name};
    }
    CloseBy(m, original, members);
    r := Some(Obj(members));
  }

  lemma CloseFails(m: Members, rewritten: Members, name: string)
    requires Rewrite(m) == Some(rewritten) && name in rewritten && Close(rewritten[name]).None?
    ensures Close(Obj(m)).None?
  {
    hide Rewrite;
  }

  method CloseItems(items: seq<Json>) returns (r: Option<Json>)
    ensures r == Close(Arr(items))
    decreases Weight(Arr(items)), 0
  {
    ItemsShrink(items);
    var closed := items;
    var index := 0;
    while index < |items|
      invariant index <= |items| == |closed|
      invariant forall j | 0 <= j < index :: Close(items[j]) == Some(closed[j])
      invariant forall j | index <= j < |items| :: closed[j] == items[j]
    {
      var item := CloseNativeObjectSchemas(closed[index]);
      if item.None? {
        assert Close(items[index]).None?;
        return None;
      }
      closed := closed[index := item.value];
      index := index + 1;
    }
    CloseItemsBy(items, closed);
    r := Some(Arr(closed));
  }

  lemma CloseBy(m: Members, rewritten: Members, out: Members)
    requires Rewrite(m) == Some(rewritten) && out.Keys == rewritten.Keys
    requires forall k | k in rewritten :: Close(rewritten[k]) == Some(out[k])
    ensures Close(Obj(m)) == Some(Obj(out))
  {
    hide Rewrite;
    var r := Close(Obj(m));
    assert r.Some? && r.value.members.Keys == out.Keys;
    assert forall k | k in out :: r.value.members[k] == out[k];
    assert r.value.members == out;
  }

  lemma CloseItemsBy(items: seq<Json>, out: seq<Json>)
    requires |items| == |out| && forall i | 0 <= i < |items| :: Close(items[i]) == Some(out[i])
    ensures Close(Arr(items)) == Some(Arr(out))
  {
    var r := Close(Arr(items));
    assert r.Some? && r.value.items == out;
  }
}
