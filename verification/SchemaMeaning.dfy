/** Normalising a schema keeps its meaning: a validator for the fragment the normaliser
    understands, and the two directions of the correspondence. */
module SchemaMeaning {
  import opened Json
  import opened SchemaNormalizer
  import opened SchemaFixpoint
  import Decimal

  // ---- a validator: sections 6.1.1 to 6.1.3 and 6.5.3 of JSON Schema Validation, 2020-12 ----

  predicate TypeAllows(name: string, v: Json) {
    match name
    case "null" => v.Null?
    case "boolean" => v.Bool?
    case "string" => v.Str?
    case "array" => v.Arr?
    case "object" => v.Obj?
    case "number" => v.Num?
    case "integer" => v.Num? && Integral(v.n)
    case _ => false
  }

  predicate TypeOk(t: Json, v: Json) {
    match t
    case Str(name) => TypeAllows(name, v)
    case Arr(types) => exists i | 0 <= i < |types| :: types[i].Str? && TypeAllows(types[i].s, v)
    case _ => true
  }

  /** An instance equals a primitive; numbers by value. */
  predicate Same(v: Json, c: Json) {
    match (v, c)
    case (Null, Null) => true
    case (Bool(x), Bool(y)) => x == y
    case (Str(x), Str(y)) => x == y
    case (Num(x), Num(y)) => Decimal.Denotes(x) == Decimal.Denotes(y)
    case _ => false
  }

  predicate EnumOk(values: Json, v: Json) {
    values.Arr? ==> exists i | 0 <= i < |values.items| :: Same(v, values.items[i])
  }

  predicate RequiredOk(required: Json, members: Members) {
    required.Arr? ==> forall i | 0 <= i < |required.items| :: required.items[i].Str? ==> required.items[i].s in members
  }

  /** The keywords that do not descend into the instance. */
  predicate LocalOk(m: Members, v: Json) {
    && ("type" in m ==> TypeOk(m["type"], v))
    && ("const" in m ==> Same(v, m["const"]))
    && ("enum" in m ==> EnumOk(m["enum"], v))
    && (v.Obj? && "required" in m ==> RequiredOk(m["required"], v.members))
    && (v.Obj? && "additionalProperties" in m && m["additionalProperties"] == Bool(false) ==>
        v.members.Keys <= Properties(m).Keys)
  }

  ghost predicate Valid(s: Json, v: Json)
    decreases s
  {
    match s
    case Bool(b) => b
    case Obj(m) =>
      && LocalOk(m, v)
      && (v.Obj? && "properties" in m && m["properties"].Obj? ==>
          forall k | k in m["properties"].members && k in v.members ::
            Valid(m["properties"].members[k], v.members[k]))
      && (v.Arr? && "items" in m ==> forall i | 0 <= i < |v.items| :: Valid(m["items"], v.items[i]))
      && ("anyOf" in m && m["anyOf"].Arr? ==>
          exists i | 0 <= i < |m["anyOf"].items| :: Valid(m["anyOf"].items[i], v))
    case _ => false
  }

  // ---- the fragment ----

  predicate Primitive(v: Json) {
    !v.Arr? && !v.Obj? && (v.Num? ==> Decimal.Moderate(v.n))
  }

  predicate Strings(v: Json) {
    v.Arr? && forall i | 0 <= i < |v.items| :: v.items[i].Str?
  }

  ghost predicate Keyword(k: string, v: Json)
    decreases v, 1
  {
    match k
    case "type" => v.Str? || Strings(v)
    case "const" => Primitive(v)
    case "enum" => v.Arr? && forall i | 0 <= i < |v.items| :: Primitive(v.items[i])
    case "properties" =>
      v.Obj? && (forall k | k in v.members :: k !in {"const", "properties", "required"} && Fragment(v.members[k]))
    case "required" => Strings(v)
    case "additionalProperties" => v.Bool?
    case "items" => Fragment(v)
    case "anyOf" => v.Arr? && forall i | 0 <= i < |v.items| :: Fragment(v.items[i])
    case _ => false
  }

  /** Schemas made of these keywords, with `anyOf` only on its own and no property named
      `const`, `properties` or `required`. */
  ghost predicate Fragment(s: Json)
    decreases s, 0
  {
    match s
    case Bool(_) => true
    case Obj(m) => (forall k | k in m :: Keyword(k, m[k])) && ("anyOf" in m ==> m.Keys == {"anyOf"})
    case _ => false
  }

  lemma {:induction false} FragmentTame(s: Json)
    requires Fragment(s)
    ensures Tame(s)
    decreases s, 0
  {
    if s.Obj? {
      forall k | k in s.members ensures Tame(s.members[k]) {
        KeywordTame(k, s.members[k]);
      }
      if "properties" in s.members { PropertiesPlain(s.members["properties"]); }
    }
  }

  lemma PropertiesPlain(p: Json)
    requires Keyword("properties", p)
    ensures Plain(p.members)
  {
    if "type" in p.members { assert Fragment(p.members["type"]); }
  }

  lemma {:induction false} KeywordTame(k: string, v: Json)
    requires Keyword(k, v)
    ensures Tame(v)
    decreases v, 1
  {
    match k
    case "properties" => forall k | k in v.members ensures Tame(v.members[k]) { FragmentTame(v.members[k]); }
      assert "properties" !in v.members;
    case "items" => FragmentTame(v);
    case "anyOf" => forall i | 0 <= i < |v.items| ensures Tame(v.items[i]) { FragmentTame(v.items[i]); }
    case _ =>
  }

  // ---- what a nullable property accepts ----

  lemma SameKind(v: Json, c: Json, t: Json)
    requires Same(v, c) && Kind(c).Some? && TypeIncludes(t, Kind(c).value)
    ensures TypeOk(t, v)
  {
    var kind := Kind(c).value;
    assert TypeAllows(kind, v) && (kind == "integer" ==> TypeAllows("number", v));
  }

  lemma EnumSame(m: Members, c: Json, v: Json)
    requires "enum" in m ==> Keyword("enum", m["enum"])
    requires c.Num? ==> Decimal.Moderate(c.n)
    requires EnumContains(m, c) && Same(v, c)
    ensures "enum" in m ==> EnumOk(m["enum"], v)
  {
    if "enum" in m {
      var items := m["enum"].items;
      var i :| 0 <= i < |items| && PrimitiveEqual(items[i], c);
      if c.Num? { Decimal.ModerateNumbersEqual(items[i].n, c.n); }
      assert Same(v, items[i]);
    }
  }

  /** The parts of two schemas that look inside arrays and objects agree. */
  ghost predicate SameInside(m: Members, n: Members) {
    forall k | k in {"properties", "required", "additionalProperties", "items", "anyOf"} ::
      (k in m <==> k in n) && (k in m ==> m[k] == n[k])
  }

  lemma SameInsideValid(m: Members, n: Members, v: Json)
    requires SameInside(m, n)
    requires "type" in n ==> TypeOk(n["type"], v)
    requires "const" in n ==> Same(v, n["const"])
    requires "enum" in n ==> EnumOk(n["enum"], v)
    requires Valid(Obj(m), v)
    ensures Valid(Obj(n), v)
  {
    assert "properties" in m <==> "properties" in n;
    assert "required" in m <==> "required" in n;
    assert "additionalProperties" in m <==> "additionalProperties" in n;
    assert "items" in m <==> "items" in n;
    assert "anyOf" in m <==> "anyOf" in n;
  }

  lemma LocalValid(m: Members, v: Json)
    requires Valid(Obj(m), v)
    ensures LocalOk(m, v)
  {
  }

  lemma ConstInside(m: Members)
    requires "const" in m && ConstToEnum(m).Some?
    ensures SameInside(m, ConstToEnum(m).value) && SameInside(ConstToEnum(m).value, m)
  {
    hide Kind, EnumContains, TypeFits;
  }

  lemma ConstShape(m: Members)
    requires "const" in m && ConstToEnum(m).Some?
    ensures Kind(m["const"]).Some?
    ensures var n, kind := ConstToEnum(m).value, Kind(m["const"]).value;
      && EnumContains(m, m["const"]) && ("type" in m ==> TypeIncludes(m["type"], kind))
      && "type" in n && TypeIncludes(n["type"], kind) && "const" !in n
      && "enum" in n && n["enum"] == Arr(if kind == "null" then [m["const"]] else [m["const"], Null])
  {
    hide Kind;
  }

  lemma ConstMeans(m: Members, v: Json)
    requires Fragment(Obj(m)) && "const" in m && ConstToEnum(m).Some? && v != Null
    ensures Valid(Obj(ConstToEnum(m).value), v) <==> Valid(Obj(m), v)
  {
    hide Valid, SameInside, Kind, EnumContains, TypeOk, TypeIncludes, ConstToEnum;
    var n, c := ConstToEnum(m).value, m["const"];
    assert Keyword("const", c) && ("enum" in m ==> Keyword("enum", m["enum"]));
    ConstShape(m);
    ConstInside(m);
    assert n["enum"].items[0] == c;
    assert EnumOk(n["enum"], v) <==> Same(v, c);
    if Same(v, c) {
      SameKind(v, c, n["type"]);
      EnumSame(m, c, v);
      if "type" in m { SameKind(v, c, m["type"]); }
    }
    if Valid(Obj(m), v) {
      LocalValid(m, v);
      SameInsideValid(m, n, v);
    }
    if Valid(Obj(n), v) {
      LocalValid(n, v);
      SameInsideValid(n, m, v);
    }
  }

  lemma AddNullMeans(t: Json, v: Json)
    requires t.Str? || Strings(t)
    ensures MentionsNull(t) ==> TypeOk(t, Null)
    ensures TypeOk(AddNull(t), v) <==> TypeOk(t, v) || v == Null
  {
    var a := AddNull(t);
    if t.Str? {
      assert a.items[0] == t && a.items[1] == Str("null");
    } else if Str("null") in t.items {
      var i :| 0 <= i < |t.items| && t.items[i] == Str("null");
      assert TypeAllows(t.items[i].s, Null);
    } else {
      assert a.items[|t.items|] == Str("null");
      assert forall i | 0 <= i < |t.items| :: a.items[i] == t.items[i];
    }
  }

  lemma NullEnumMeans(m: Members, v: Json)
    requires "enum" in m && m["enum"].Arr?
    ensures EnumOk(WithNullEnum(m)["enum"], v) <==> EnumOk(m["enum"], v) || v == Null
  {
    var before, after := m["enum"].items, WithNullEnum(m)["enum"].items;
    assert forall i | 0 <= i < |before| :: after[i] == before[i];
    if Null in before {
      var i :| 0 <= i < |before| && before[i] == Null;
      assert Same(Null, before[i]);
    } else {
      assert after[|before|] == Null;
    }
  }

  lemma TypedInside(m: Members)
    requires Fragment(Obj(m)) && "type" in m && "anyOf" !in m
    ensures NullableMembers(m).Obj?
    ensures var n := NullableMembers(m).members;
      && SameInside(m, n) && SameInside(n, m) && ("const" in n <==> "const" in m)
      && "type" in n && n["type"] == (if MentionsNull(m["type"]) then m["type"] else AddNull(m["type"]))
      && ("enum" in n <==> "enum" in m) && ("enum" in m ==> n["enum"] == WithNullEnum(m)["enum"])
      && n.Keys == m.Keys
  {
    hide Fragment, MentionsNull, AddNull;
  }

  lemma TypedMeans(m: Members, v: Json)
    requires Fragment(Obj(m)) && "type" in m && "anyOf" !in m && "const" !in m
    ensures Valid(NullableMembers(m), v) <==> Valid(Obj(m), v) || v == Null
  {
    hide SameInside, NullableMembers, WithNullEnum, AddNull, MentionsNull, TypeOk, EnumOk, Fragment;
    assert Keyword("type", m["type"]) && ("enum" in m ==> Keyword("enum", m["enum"])) by { FragmentKeyword(m); }
    TypedInside(m);
    var n := NullableMembers(m).members;
    AddNullMeans(m["type"], v);
    AddNullMeans(m["type"], Null);
    if "enum" in m { NullEnumMeans(m, v); }
    if v == Null {
      NoAnyOf(m, n);
      assert LocalOk(n, v);
    } else {
      if Valid(Obj(m), v) { SameInsideValid(m, n, v); }
      if Valid(Obj(n), v) { SameInsideValid(n, m, v); }
    }
  }

  lemma FragmentKeyword(m: Members)
    requires Fragment(Obj(m))
    ensures forall k | k in m :: Keyword(k, m[k])
  {
  }

  lemma NoAnyOf(m: Members, n: Members)
    requires SameInside(m, n) && "anyOf" !in m
    ensures "anyOf" !in n
  {
  }

  lemma ConstFragment(m: Members)
    requires Fragment(Obj(m)) && ConstToEnum(m).Some?
    ensures Fragment(Obj(ConstToEnum(m).value)) && "const" !in ConstToEnum(m).value
    ensures "const" in m ==> "type" in ConstToEnum(m).value && "anyOf" !in ConstToEnum(m).value
  {
    FragmentKeyword(m);
    var n := ConstToEnum(m).value;
    forall k | k in n ensures Keyword(k, n[k]) {
      if "const" in m && k == "enum" { assert Keyword("const", m["const"]); }
    }
  }

  lemma TypedFragment(m: Members)
    requires Fragment(Obj(m)) && "type" in m && "anyOf" !in m
    ensures Fragment(NullableMembers(m))
  {
    FragmentKeyword(m);
    TypedInside(m);
    var n := NullableMembers(m).members;
    forall k | k in n ensures Keyword(k, n[k]) {
      if k in {"properties", "required", "additionalProperties", "items"} {
        assert n[k] == m[k];
      }
    }
  }

  lemma NullSchema(v: Json)
    ensures var nulls := Obj(map["type" := Str("null")]);
      Fragment(nulls) && (Valid(nulls, v) <==> v == Null)
  {
  }

  lemma AnyOfMeans(variants: seq<Json>, v: Json)
    ensures Valid(Obj(map["anyOf" := Arr(variants)]), v) <==> exists i | 0 <= i < |variants| :: Valid(variants[i], v)
    ensures (forall i | 0 <= i < |variants| :: Fragment(variants[i])) ==> Fragment(Obj(map["anyOf" := Arr(variants)]))
  {
    var m: Members := map["anyOf" := Arr(variants)];
    assert m["anyOf"].items == variants;
    assert (forall i | 0 <= i < |variants| :: Fragment(variants[i])) ==> Keyword("anyOf", Arr(variants));
  }

  lemma WrapMeans(p: Json, v: Json)
    ensures Valid(Wrap(p), v) <==> Valid(p, v) || v == Null
    ensures Fragment(p) ==> Fragment(Wrap(p))
  {
    hide Valid, Fragment;
    var items := [p, Obj(map["type" := Str("null")])];
    NullSchema(v);
    AnyOfMeans(items, v);
    assert items[0] == p && items[1] == Obj(map["type" := Str("null")]);
  }

  /** An `anyOf` with a null variant is left as it stands. */
  predicate KeptAnyOf(p: Json) {
    p.Obj? && "anyOf" in p.members && HasNullVariant(p.members)
  }

  /** The nullable form accepts what the property accepted and null besides, unless the
      property is an `anyOf` that was left as it stood. */
  lemma NullableMeans(p: Json, v: Json)
    requires Fragment(p) && MakeNullable(p).Some?
    ensures Fragment(MakeNullable(p).value)
    ensures KeptAnyOf(p) ==> MakeNullable(p).value == p
    ensures Valid(MakeNullable(p).value, v) <==> Valid(p, v) || (v == Null && !KeptAnyOf(p))
  {
    hide Valid, Fragment, Keyword, NullableMembers, ConstToEnum;
    if p.Bool? {
      WrapMeans(p, v);
    } else {
      FragmentShape(p);
      var m := p.members;
      NullableCases(m);
      if "anyOf" !in m {
        ConstFragment(m);
        var n := ConstToEnum(m).value;
        if "type" in n {
          TypedFragment(n);
          TypedMeans(n, v);
          if "const" in m && v != Null { ConstMeans(m, v); }
        } else {
          WrapMeans(p, v);
        }
      } else {
        WrapMeans(p, v);
      }
    }
  }

  lemma FragmentShape(p: Json)
    requires Fragment(p)
    ensures p.Bool? || p.Obj?
    ensures p.Obj? && "anyOf" in p.members ==> p.members.Keys == {"anyOf"}
  {
  }

  lemma NullableCases(m: Members)
    requires Fragment(Obj(m)) && ConstToEnum(m).Some?
    ensures "const" !in m ==> ConstToEnum(m).value == m
    ensures "anyOf" in m ==> NullableMembers(m) == if HasNullVariant(m) then Obj(m) else Wrap(Obj(m))
    ensures "anyOf" !in m && "type" !in m && "const" !in m ==> NullableMembers(m) == Wrap(Obj(m))
  {
  }
}
