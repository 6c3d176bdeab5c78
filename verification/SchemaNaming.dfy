/** When a normalised schema is closed: exactly when no map of properties reads as a schema. */
module SchemaNaming {
  import opened Json
  import opened SchemaNormalizer
  import opened SchemaFixpoint
  import opened SchemaCorrespondence

  predicate Leaf(v: Json) { !v.Arr? && !v.Obj? }

  predicate Schematic(v: Json) { v.Obj? || v.Bool? }

  /** Properties are declared by schemas and enumerations list primitives, wherever the recursion
      may look. */
  ghost predicate Shaped(v: Json) {
    match v
    case Obj(m) =>
      && ("enum" in m && m["enum"].Arr? ==> forall i | 0 <= i < |m["enum"].items| :: Leaf(m["enum"].items[i]))
      && ("properties" in m && m["properties"].Obj? ==>
          forall k | k in m["properties"].members ::
            Schematic(m["properties"].members[k]) && Shaped(m["properties"].members[k]))
      && (forall k | k in m && (k == "properties" ==> !m[k].Obj?) :: Shaped(m[k]))
    case Arr(items) => forall i | 0 <= i < |items| :: Shaped(items[i])
    case _ => true
  }

  ghost predicate AllSchematic(properties: Members) {
    forall k | k in properties :: Schematic(properties[k])
  }

  // ---- a map of properties that reads as a schema gets a name it did not have ----

  lemma NameAdded(q: Members)
    requires AllSchematic(q) && !Plain(q) && Rewrite(q).Some?
    ensures Rewrite(q).value.Keys != q.Keys
  {
    hide NullableProperties;
    if "const" in q {
      assert "type" !in q && "type" in Rewrite(q).value;
    } else {
      assert "required" !in q && "required" in Rewrite(q).value;
    }
  }

  lemma NullableSchematic(properties: Members, required: set<string>)
    requires AllSchematic(properties) && NullableProperties(properties, required).Some?
    ensures var nullable := NullableProperties(properties, required).value;
      AllSchematic(nullable) && nullable.Keys == properties.Keys && Plain(nullable) == Plain(properties)
  {
    var nullable := NullableProperties(properties, required).value;
    forall k | k in nullable ensures Schematic(nullable[k]) {
      assert NullableProperty(properties[k], k in required).Some?;
    }
  }

  lemma PropertiesRewritten(m: Members)
    requires Rewrite(m).Some? && "properties" in m && m["properties"].Obj?
    ensures var rw := Rewrite(m).value;
      && RequiredNames(m).Some? && "properties" in rw && rw["properties"].Obj?
      && NullableProperties(Properties(m), RequiredNames(m).value) == Some(Properties(rw))
      && "required" in rw && rw["required"] == Names(SortedKeys(Properties(m).Keys))
  {
    hide NullableProperties;
    var typed := NormalizeConst(m).value;
    assert RequiredNames(typed) == RequiredNames(m);
    CloseObjectParts(typed);
  }

  /** The declared properties then outnumber the required ones. */
  lemma NamesGrow(m: Members, out: Members)
    requires "properties" in m && m["properties"].Obj? && AllSchematic(Properties(m)) && !Plain(Properties(m))
    requires Close(Obj(m)) == Some(Obj(out))
    ensures !ClosedHere(out)
  {
    hide Rewrite, Close, Weight, NullableProperties, RequiredNames, Plain, AllSchematic;
    ChildrenClose(m, out);
    var rw := Rewrite(m).value;
    PropertiesRewritten(m);
    NullableSchematic(Properties(m), RequiredNames(m).value);
    CloseShape(rw["properties"]);
    ChildrenClose(Properties(rw), Properties(out));
    NameAdded(Properties(rw));
    CloseStrings(SortedKeys(Properties(m).Keys));
    RequiredIsAll(out, Properties(m).Keys);
    if ClosedHere(out) { RequiredIsAll(out, Properties(out).Keys); }
  }

  // ---- nothing untame is lost on the way ----

  /** Two sets of members that differ in keywords without schemas only. */
  ghost predicate SameSchemas(m: Members, t: Members) {
    && (forall k | k in m && k !in {"const", "enum", "type"} :: k in t && t[k] == m[k])
    && (forall k | k in t && k !in {"const", "enum", "type"} :: k in m)
    && (forall k | k in m && k in {"const", "enum", "type"} :: Tame(m[k]) || (k in t && (Tame(t[k]) ==> Tame(m[k]))))
    && (forall k | k in t && k in {"const", "enum", "type"} :: Shaped(t[k]))
    && ("enum" in t && t["enum"].Arr? ==> forall i | 0 <= i < |t["enum"].items| :: Leaf(t["enum"].items[i]))
  }

  lemma SameTame(m: Members, t: Members)
    requires Shaped(Obj(m)) && SameSchemas(m, t)
    ensures Shaped(Obj(t)) && (Tame(Obj(t)) ==> Tame(Obj(m)))
  {
    forall k | k in t && (k == "properties" ==> !t[k].Obj?) ensures Shaped(t[k]) {
      if k !in {"const", "enum", "type"} { assert t[k] == m[k]; }
    }
    if Tame(Obj(t)) {
      forall k | k in m ensures Tame(m[k]) {
        if k in t { assert Tame(t[k]); }
      }
    }
  }

  lemma LeafTame(v: Json)
    requires Leaf(v) || (v.Arr? && forall i | 0 <= i < |v.items| :: Leaf(v.items[i]))
    ensures Tame(v) && Shaped(v)
  {
  }

  lemma EnumSame(m: Members)
    requires Shaped(Obj(m))
    ensures SameSchemas(m, WithNullEnum(m))
  {
    if "enum" in m && m["enum"].Arr? {
      LeafTame(m["enum"]);
      LeafTame(Arr(m["enum"].items + [Null]));
    }
  }

  /** What a constant becomes: an enumeration, and a type where there was none. */
  lemma ConstRemoved(m: Members, t: Members)
    requires Shaped(Obj(m)) && "const" in m && ConstToEnum(m) == Some(t)
    ensures forall k | k !in {"const", "enum", "type"} :: (k in t <==> k in m) && (k in m ==> t[k] == m[k])
    ensures "const" !in t && "type" in t && (if "type" in m then t["type"] == m["type"] else Leaf(t["type"]))
    ensures "enum" in t && t["enum"].Arr? && forall i | 0 <= i < |t["enum"].items| :: Leaf(t["enum"].items[i])
    ensures Leaf(m["const"]) && ("enum" in m ==> m["enum"].Arr?)
  {
  }

  lemma ConstSame(m: Members)
    requires Shaped(Obj(m)) && ConstToEnum(m).Some?
    ensures SameSchemas(m, ConstToEnum(m).value)
  {
    hide ConstToEnum;
    if "const" in m {
      var t := ConstToEnum(m).value;
      ConstRemoved(m, t);
      LeafTame(m["const"]);
      if "enum" in m { LeafTame(m["enum"]); }
      LeafTame(t["enum"]);
      if "type" !in m { LeafTame(t["type"]); }
    } else {
      NoConst(m);
    }
  }

  lemma NoConst(m: Members)
    requires "const" !in m
    ensures ConstToEnum(m) == Some(m)
  {
  }

  lemma AddNullShaped(t: Json)
    requires Shaped(t)
    ensures var n := AddNull(t); Shaped(n) && (Tame(n) ==> Tame(t))
  {
    var n := AddNull(t);
    if t.Arr? && n != t {
      assert n.items[|t.items|] == Str("null") && forall i | 0 <= i < |t.items| :: n.items[i] == t.items[i];
    } else if t.Str? {
      LeafTame(n);
    }
  }

  lemma TypeSame(m: Members)
    requires Shaped(Obj(m)) && "type" in m
    ensures SameSchemas(m, m["type" := AddNull(m["type"])])
  {
    hide AddNull, Tame, Plain;
    assert Shaped(m["type"]);
    AddNullShaped(m["type"]);
  }

  lemma WrapSame(p: Json)
    requires Shaped(p)
    ensures Shaped(Wrap(p)) && (Tame(Wrap(p)) ==> Tame(p))
  {
    var none: Members := map["type" := Str("null")];
    assert Shaped(Obj(none));
    var variants := [p, Obj(none)];
    assert Shaped(Arr(variants));
    if Tame(Wrap(p)) {
      assert Tame(Wrap(p).members["anyOf"]);
      assert Tame(variants[0]);
    }
  }

  lemma NullableReflects(p: Json)
    requires Shaped(p) && MakeNullable(p).Some?
    ensures Shaped(MakeNullable(p).value) && (Tame(MakeNullable(p).value) ==> Tame(p))
  {
    hide ConstToEnum, WithNullEnum, AddNull, Wrap, Tame, Shaped, SameSchemas;
    if p.Obj? {
      var m := ConstToEnum(p.members).value;
      ConstSame(p.members);
      SameTame(p.members, m);
      EnumSame(m);
      SameTame(m, WithNullEnum(m));
      WrapSame(Obj(m));
      if "type" in m {
        var typed := m["type" := AddNull(m["type"])];
        TypeSame(m);
        SameTame(m, typed);
        EnumSame(typed);
        SameTame(typed, WithNullEnum(typed));
      }
    } else {
      WrapSame(p);
    }
  }

  lemma KeyStays(m: Members, k: string)
    requires Rewrite(m).Some? && k in m && !Tame(m[k]) && (k == "properties" ==> !m[k].Obj?)
    ensures k in Rewrite(m).value && Rewrite(m).value[k] == m[k]
  {
    hide NullableProperties, RequiredNames;
    RequiredTame(NormalizeConst(m).value);
  }

  lemma RequiredTame(m: Members)
    ensures RequiredNames(m).Some? && "required" in m ==> Tame(m["required"])
  {
    if RequiredNames(m).Some? && "required" in m {
      assert forall i | 0 <= i < |m["required"].items| :: Leaf(m["required"].items[i]);
    }
  }

  /** An untame part of a schema comes out open. */
  lemma {:induction false} UntameOpen(s: Json)
    requires Shaped(s) && Close(s).Some? && !Tame(s)
    ensures !ClosedEverywhere(Close(s).value)
    decreases Weight(s)
  {
    hide Close, Weight, Rewrite, NullableProperties, RequiredNames, ClosedHere, Plain;
    CloseShape(s);
    match s
    case Arr(items) =>
      ItemsShrink(items);
      var i :| 0 <= i < |items| && !Tame(items[i]);
      UntameOpen(items[i]);
    case Obj(m) =>
      var out := Close(s).value.members;
      ChildrenClose(m, out);
      if k :| k in m && !Tame(m[k]) && (k == "properties" ==> !m[k].Obj?) {
        KeyStays(m, k);
        UntameOpen(m[k]);
      } else if !Plain(Properties(m)) {
        ShapedProperties(m);
        NamesGrow(m, out);
      } else {
        PropertyOpen(m, out);
      }
  }

  lemma {:induction false} PropertyOpen(m: Members, out: Members)
    requires Shaped(Obj(m)) && Close(Obj(m)) == Some(Obj(out))
    requires "properties" in m && m["properties"].Obj? && Plain(Properties(m)) && !Tame(m["properties"])
    ensures !ClosedEverywhere(Obj(out))
    decreases Weight(Obj(m)), 0
  {
    hide Close, Weight, Rewrite, NullableProperty, RequiredNames, ClosedHere, ClosedEverywhere, Plain, Tame, Shaped;
    hide MakeNullable;
    ChildrenClose(m, out);
    var rw := Rewrite(m).value;
    PropertiesRewritten(m);
    var properties := Properties(m);
    ShapedProperties(m);
    NullableSchematic(properties, RequiredNames(m).value);
    PropertiesClose(rw, out);
    var k := UntameProperty(properties);
    NullableEach(properties, RequiredNames(m).value, k);
    UntameOpen(Properties(rw)[k]);
    OpenInside(out, k);
  }

  lemma ShapedProperties(m: Members)
    requires Shaped(Obj(m))
    ensures AllSchematic(Properties(m)) && forall k | k in Properties(m) :: Shaped(Properties(m)[k])
  {
  }

  lemma UntameProperty(properties: Members) returns (k: string)
    requires Plain(properties) && !Tame(Obj(properties))
    ensures k in properties && !Tame(properties[k])
  {
    k :| k in properties && !Tame(properties[k]);
  }

  lemma NullableEach(properties: Members, required: set<string>, k: string)
    requires NullableProperties(properties, required).Some? && k in properties
    requires Shaped(properties[k]) && !Tame(properties[k])
    ensures var nullable := NullableProperties(properties, required).value;
      k in nullable && Shaped(nullable[k]) && !Tame(nullable[k])
  {
    hide MakeNullable, Shaped, Tame;
    assert NullableProperty(properties[k], k in required).Some?;
    if k !in required { NullableReflects(properties[k]); }
  }

  lemma OpenInside(out: Members, k: string)
    requires k in Properties(out) && !ClosedEverywhere(Properties(out)[k])
    ensures !ClosedEverywhere(Obj(out))
  {
    assert !ClosedEverywhere(out["properties"]);
  }

  /** So a schema comes out closed everywhere exactly when no map of its properties reads as an
      object schema or holds a constant. */
  lemma ClosedIffTame(s: Json)
    requires Shaped(s) && Close(s).Some?
    ensures ClosedEverywhere(Close(s).value) <==> Tame(s)
  {
    if Tame(s) { CloseFixed(s); } else { UntameOpen(s); }
  }

  // ---- such maps do get through ----

  /** An object with a property called `properties`, which may be anything. */
  function SelfNamed(): Json {
    Obj(map["properties" := Obj(map["properties" := Obj(map[])])])
  }

  /** It is normalised without complaint and does not come out closed. */
  lemma NamingNeeded()
    ensures Shaped(SelfNamed()) && Close(SelfNamed()).Some? && !ClosedEverywhere(Close(SelfNamed()).value)
  {
    hide Close, ClosedEverywhere;
    var none: Members := map[];
    var declared: Members := map["properties" := Obj(none)];
    assert Gentle(Obj(none)) && Gentle(Obj(declared)) && Shaped(Obj(none));
    GentleCloses(SelfNamed());
    ClosedIffTame(SelfNamed());
  }
}
