/** Which schemas are refused: exactly those that break a condition on the schema as it was sent. */
module SchemaRefusals {
  import opened Json
  import opened SchemaNormalizer
  import opened SchemaFixpoint
  import opened SchemaMeaning
  import opened SchemaCorrespondence
  import Decimal

  // ---- the condition, on the original schema ----

  /** A constant is an instance that the sibling keywords `type` and `enum` allow. */
  predicate ConstAllowed(m: Members) {
    "const" in m ==>
      && ("type" in m ==> TypeOk(m["type"], m["const"]))
      && ("enum" in m ==> EnumOk(m["enum"], m["const"]))
  }

  /** It speaks of the members of objects, or its type allows an object. */
  predicate DescribesObjects(m: Members) {
    "properties" in m || "required" in m || ("type" in m && TypeOk(m["type"], Obj(map[])))
  }

  predicate Declared(m: Members, name: string) {
    "properties" in m && m["properties"].Obj? && name in m["properties"].members
  }

  /** An object schema is not open, and it requires nothing that it does not declare. */
  predicate ObjectAllowed(m: Members) {
    DescribesObjects(m) ==>
      && ("additionalProperties" in m ==> m["additionalProperties"] == Bool(false))
      && ("required" in m && m["required"].Arr? ==>
          forall i | 0 <= i < |m["required"].items| ::
            m["required"].items[i].Str? ==> Declared(m, m["required"].items[i].s))
  }

  /** So it is throughout the schema. */
  ghost predicate Acceptable(s: Json)
    decreases s
  {
    s.Obj? ==>
      var m := s.members;
      && ConstAllowed(m) && ObjectAllowed(m)
      && ("items" in m ==> Acceptable(m["items"]))
      && ("properties" in m && m["properties"].Obj? ==>
          forall k | k in m["properties"].members :: Acceptable(m["properties"].members[k]))
      && ("anyOf" in m && m["anyOf"].Arr? ==>
          forall i | 0 <= i < |m["anyOf"].items| :: Acceptable(m["anyOf"].items[i]))
  }

  // ---- what the tests of the normaliser come to ----

  lemma KindTypes(c: Json, declared: string)
    requires Primitive(c)
    ensures Kind(c).Some? && (PairCompatible(declared, Kind(c).value) <==> TypeAllows(declared, c))
  {
  }

  lemma TypeIncludesMeans(t: Json, c: Json)
    requires (t.Str? || Strings(t)) && Primitive(c)
    ensures Kind(c).Some? && (TypeIncludes(t, Kind(c).value) <==> TypeOk(t, c))
  {
    hide Kind, PairCompatible, TypeAllows, Primitive;
    if t.Str? {
      KindTypes(c, t.s);
    } else {
      KindTypes(c, "");
      forall i | 0 <= i < |t.items|
        ensures PairCompatible(t.items[i].s, Kind(c).value) <==> TypeAllows(t.items[i].s, c)
      {
        KindTypes(c, t.items[i].s);
      }
    }
  }

  lemma PrimitiveEqualMeans(a: Json, c: Json)
    requires Primitive(a) && Primitive(c)
    ensures PrimitiveEqual(a, c) <==> Same(c, a)
  {
    hide Decimal.NumbersEqual, Decimal.Denotes;
    if a.Num? && c.Num? { Decimal.ModerateNumbersEqual(a.n, c.n); }
  }

  lemma EnumContainsMeans(m: Members)
    requires Fragment(Obj(m)) && "const" in m
    ensures EnumContains(m, m["const"]) <==> ("enum" in m ==> EnumOk(m["enum"], m["const"]))
  {
    hide Fragment, Primitive, PrimitiveEqual, Same;
    FragmentKeyword(m);
    assert Primitive(m["const"]);
    if "enum" in m {
      var items := m["enum"].items;
      forall i | 0 <= i < |items| ensures PrimitiveEqual(items[i], m["const"]) <==> Same(m["const"], items[i]) {
        PrimitiveEqualMeans(items[i], m["const"]);
      }
    }
  }

  lemma ConstPrimitive(m: Members)
    requires Fragment(Obj(m)) && "const" in m
    ensures Primitive(m["const"]) && ("type" in m ==> m["type"].Str? || Strings(m["type"]))
  {
    FragmentKeyword(m);
    assert Keyword("const", m["const"]);
  }

  lemma ConstMeansAllowed(m: Members)
    requires Fragment(Obj(m))
    ensures NormalizeConst(m).Some? <==> ConstAllowed(m)
    ensures ConstToEnum(m).Some? <==> ConstAllowed(m)
  {
    hide Fragment, Primitive, Kind, TypeIncludes, TypeOk, EnumOk, PrimitiveEqual;
    if "const" in m {
      ConstPrimitive(m);
      EnumContainsMeans(m);
      var rest := m - {"const"};
      assert EnumContains(rest, m["const"]) <==> EnumContains(m, m["const"]);
      TypeIncludesMeans(if "type" in m then m["type"] else Str("null"), m["const"]);
    }
  }

  lemma ObjectFlag(m: Members)
    requires Fragment(Obj(m))
    ensures IsObjectSchema(m) <==> DescribesObjects(m)
  {
    FragmentKeyword(m);
    if "type" in m && m["type"].Arr? {
      var items := m["type"].items;
      if Str("object") in items {
        var i :| 0 <= i < |items| && items[i] == Str("object");
        assert TypeAllows(items[i].s, Obj(map[]));
      }
      if i :| 0 <= i < |items| && items[i].Str? && TypeAllows(items[i].s, Obj(map[])) {
        assert items[i] == Str("object");
      }
    }
  }

  lemma RequiredMeans(m: Members)
    requires Fragment(Obj(m))
    ensures RequiredNames(m).Some?
    ensures RequiredNames(m).value <= Properties(m).Keys <==>
      ("required" in m ==> forall i | 0 <= i < |m["required"].items| :: Declared(m, m["required"].items[i].s))
  {
    FragmentKeyword(m);
    if "required" in m {
      assert Strings(m["required"]);
      var items := m["required"].items;
      assert forall i | 0 <= i < |items| :: items[i].s in RequiredNames(m).value;
      assert forall i | 0 <= i < |items| :: Declared(m, items[i].s) <==> items[i].s in Properties(m);
    }
  }

  lemma ObjectAllowedMeans(m: Members)
    requires Fragment(Obj(m))
    ensures ObjectAllowed(m) <==>
      (IsObjectSchema(m) ==>
        && ("additionalProperties" in m ==> m["additionalProperties"] == Bool(false))
        && RequiredNames(m).Some? && RequiredNames(m).value <= Properties(m).Keys)
  {
    hide IsObjectSchema, DescribesObjects, Declared, RequiredNames;
    ObjectFlag(m);
    RequiredMeans(m);
    FragmentKeyword(m);
    if "required" in m { assert Strings(m["required"]); }
  }

  lemma NullableMeansAllowed(p: Json)
    requires Fragment(p)
    ensures MakeNullable(p).Some? <==> (p.Obj? ==> ConstAllowed(p.members))
    ensures Acceptable(p) ==> MakeNullable(p).Some?
  {
    hide Fragment, ConstToEnum, ConstAllowed, ObjectAllowed;
    if p.Obj? { ConstMeansAllowed(p.members); }
  }

  lemma NullablesExist(properties: Members, required: set<string>)
    ensures NullableProperties(properties, required).Some?
      <==> forall k | k in properties :: NullableProperty(properties[k], k in required).Some?
  {
    hide NullableProperty;
  }

  /** When the step at one schema succeeds. */
  lemma RewriteExact(m: Members)
    requires Fragment(Obj(m))
    ensures Rewrite(m).Some? <==>
      && ConstAllowed(m) && ObjectAllowed(m)
      && (IsObjectSchema(m) ==> NullableProperties(Properties(m), Req(m)).Some?)
  {
    hide Fragment, NormalizeConst, ConstToEnum, ConstAllowed, ObjectAllowed, IsObjectSchema, NullableProperties;
    hide RequiredNames, TypeCloses;
    ConstMeansAllowed(m);
    ObjectAllowedMeans(m);
    if NormalizeConst(m).Some? {
      TypedFlags(m);
      var typed := NormalizeConst(m).value;
      assert "additionalProperties" in typed <==> "additionalProperties" in m;
    }
  }

  // ---- nullable forms are acceptable alike ----

  lemma WrapAcceptable(p: Json)
    ensures Acceptable(Wrap(p)) <==> Acceptable(p)
  {
    var none: Members := map["type" := Str("null")];
    var variants := [p, Obj(none)];
    assert Acceptable(Obj(none));
    assert Wrap(p).members["anyOf"].items == variants && variants[0] == p;
  }

  lemma NullableNoConst(p: Json)
    requires Fragment(p) && MakeNullable(p).Some?
    ensures var q := MakeNullable(p).value; q.Obj? && (q != Wrap(p) ==> "const" !in q.members)
  {
    hide Fragment, ConstToEnum, AddNull, MentionsNull, Kind, EnumContains, TypeFits;
    if p.Obj? {
      ConstFragment(p.members);
      var m := ConstToEnum(p.members).value;
      FragmentShape(p);
      NullableCases(p.members);
    }
  }

  lemma InsideAcceptable(m: Members, n: Members)
    requires SameInside(m, n) && "anyOf" !in m && (DescribesObjects(m) <==> DescribesObjects(n))
    requires ConstAllowed(m) && ConstAllowed(n)
    ensures Acceptable(Obj(m)) <==> Acceptable(Obj(n))
  {
    hide ConstAllowed, DescribesObjects;
    NoAnyOf(m, n);
    assert "properties" in m <==> "properties" in n;
    assert "required" in m <==> "required" in n;
    assert "additionalProperties" in m <==> "additionalProperties" in n;
    assert "items" in m <==> "items" in n;
    assert ObjectAllowed(m) <==> ObjectAllowed(n);
  }

  lemma NullableAcceptable(p: Json)
    requires Fragment(p) && MakeNullable(p).Some?
    ensures Acceptable(MakeNullable(p).value) <==> Acceptable(p)
  {
    hide Fragment, MakeNullable, Acceptable, SameInside, IsObjectSchema, DescribesObjects;
    NullableInside(p);
    NullableFragment(p, false);
    NullableNoConst(p);
    var q := MakeNullable(p).value;
    if q == Wrap(p) {
      WrapAcceptable(p);
    } else if q != p {
      NullableMeansAllowed(p);
      ObjectFlag(p.members);
      ObjectFlag(q.members);
      InsideAcceptable(p.members, q.members);
    }
  }

  // ---- the whole recursion ----

  lemma CloseExists(m: Members)
    ensures Close(Obj(m)).Some? <==>
      Rewrite(m).Some? && forall k | k in Rewrite(m).value :: Close(Rewrite(m).value[k]).Some?
  {
    hide Rewrite;
  }

  lemma CloseItemsExist(items: seq<Json>)
    ensures Close(Arr(items)).Some? <==> forall i | 0 <= i < |items| :: Close(items[i]).Some?
  {
  }

  /** The members of a rewritten schema, the ones that hold no schema being left alone. */
  lemma PlainMembersClose(m: Members, rw: Members, k: string)
    requires Fragment(Obj(m)) && Rewrite(m) == Some(rw) && k in rw && k !in {"items", "properties", "anyOf"}
    ensures Close(rw[k]).Some?
  {
    hide Rewrite, Close, Fragment, RequiredNames, NullableProperties, IsObjectSchema, SortedKeys;
    FragmentKeyword(m);
    RewriteParts(m);
    if k == "required" {
      CloseStrings(SortedKeys(Properties(m).Keys));
    } else if k == "type" && "type" !in m {
      CloseLeaf(rw[k]);
    } else if k == "additionalProperties" {
      assert SameMember(k, m, rw) || rw[k] == Bool(false);
      if "additionalProperties" in m { assert Keyword(k, m[k]); }
      CloseLeaf(rw[k]);
    } else {
      assert k != "type" ==> SameMember(k, m, rw);
      assert Keyword(k, m[k]);
      KeywordCloses(k, m[k]);
    }
  }

  lemma {:induction false} PropertiesExact(m: Members, rw: Members)
    requires Fragment(Obj(m)) && Rewrite(m) == Some(rw) && "properties" in m
    ensures "properties" in rw
    ensures Close(rw["properties"]).Some? <==> forall k | k in Properties(m) :: Acceptable(Properties(m)[k])
    decreases Weight(Obj(m)), 0
  {
    hide Rewrite, Close, Fragment, RequiredNames, NullableProperties, NullableProperty, Acceptable, Plain, Weight;
    RewriteParts(m);
    RewriteShrinks(m);
    NullablePropertiesPlain(m, rw);
    var nullable := Properties(rw);
    PlainRewrite(nullable);
    CloseExists(nullable);
    MembersShrink(nullable);
    forall k | k in Properties(m) ensures Close(nullable[k]).Some? <==> Acceptable(Properties(m)[k]) {
      PropertyFragment(m, k);
      NullableFragment(Properties(m)[k], k in Req(m));
      PropertyAcceptable(Properties(m)[k], k in Req(m));
      CloseExact(nullable[k]);
    }
  }

  lemma PropertyAcceptable(p: Json, required: bool)
    requires Fragment(p) && NullableProperty(p, required).Some?
    ensures Acceptable(NullableProperty(p, required).value) <==> Acceptable(p)
  {
    hide Fragment, Acceptable, MakeNullable;
    if !required { NullableAcceptable(p); }
  }

  lemma AcceptedHere(m: Members)
    requires Fragment(Obj(m)) && Acceptable(Obj(m)) && IsObjectSchema(m)
    ensures NullableProperties(Properties(m), Req(m)).Some?
  {
    hide Fragment, ConstAllowed, ObjectAllowed, IsObjectSchema, RequiredNames, NullableProperties, MakeNullable;
    NullablesExist(Properties(m), Req(m));
    forall k | k in Properties(m) ensures NullableProperty(Properties(m)[k], k in Req(m)).Some? {
      PropertyFragment(m, k);
      assert Acceptable(Properties(m)[k]);
      NullableMeansAllowed(Properties(m)[k]);
    }
  }

  lemma {:induction false} VariantsExact(m: Members)
    requires Fragment(Obj(m)) && "anyOf" in m
    ensures m["anyOf"].Arr?
    ensures Close(m["anyOf"]).Some? <==> forall i | 0 <= i < |m["anyOf"].items| :: Acceptable(m["anyOf"].items[i])
    decreases Weight(Obj(m)), 0
  {
    hide Rewrite, Close, Fragment, Weight, Acceptable;
    AnyOfFragment(m);
    var items := m["anyOf"].items;
    CloseItemsExist(items);
    MembersShrink(m);
    ItemsShrink(items);
    forall i | 0 <= i < |items| ensures Close(items[i]).Some? <==> Acceptable(items[i]) {
      CloseExact(items[i]);
    }
  }

  /** A schema of the fragment is normalised exactly when it is acceptable. */
  lemma {:induction false} CloseExact(s: Json)
    requires Fragment(s)
    ensures Close(s).Some? <==> Acceptable(s)
    decreases Weight(s), 1
  {
    hide Rewrite, Close, Fragment, Weight, ConstAllowed, ObjectAllowed, Keyword, NullableProperties, IsObjectSchema;
    FragmentShape(s);
    if s.Bool? {
      CloseLeaf(s);
    } else {
      var m := s.members;
      CloseExists(m);
      RewriteExact(m);
      FragmentKeyword(m);
      if Rewrite(m).None? {
        if Acceptable(s) && IsObjectSchema(m) { AcceptedHere(m); }
      } else {
        var rw := Rewrite(m).value;
        RewriteShrinks(m);
        RewriteParts(m);
        forall k | k in rw && k !in {"items", "properties", "anyOf"} ensures Close(rw[k]).Some? {
          PlainMembersClose(m, rw, k);
        }
        if "properties" in m { PropertiesExact(m, rw); }
        assert SameMember("items", m, rw) && SameMember("anyOf", m, rw);
        if "items" in m {
          ItemsFragment(m);
          CloseExact(m["items"]);
        }
        if "anyOf" in m { VariantsExact(m); }
      }
    }
  }
}
