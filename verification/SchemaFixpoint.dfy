/** Every normalised schema is closed throughout, and normalising it again changes nothing. */
module SchemaFixpoint {
  import opened Json
  import opened SchemaNormalizer

  /** The recursion visits a `properties` map as if it were a schema itself. Tame schemas
      have no property names that make such a map read as an object schema or a constant. */
  ghost predicate Tame(s: Json) {
    match s
    case Obj(m) =>
      && ("properties" in m && m["properties"].Obj? ==> Plain(m["properties"].members))
      && forall k | k in m :: Tame(m[k])
    case Arr(items) => forall i | 0 <= i < |items| :: Tame(items[i])
    case _ => true
  }

  ghost predicate Plain(properties: Members) {
    "const" !in properties && !IsObjectSchema(properties)
  }

  ghost predicate ClosedHere(m: Members) {
    IsObjectSchema(m) ==>
      && "additionalProperties" in m && m["additionalProperties"] == Bool(false)
      && "required" in m && m["required"] == Names(SortedKeys(Properties(m).Keys))
  }

  ghost predicate ClosedEverywhere(s: Json) {
    match s
    case Obj(m) => ClosedHere(m) && forall k | k in m :: ClosedEverywhere(m[k])
    case Arr(items) => forall i | 0 <= i < |items| :: ClosedEverywhere(items[i])
    case _ => true
  }

  // ---- nullable properties stay tame ----

  lemma NullableTame(p: Json)
    requires Tame(p) && MakeNullable(p).Some?
    ensures Tame(MakeNullable(p).value) && MakeNullable(p).value.Obj?
  {
    hide Tame, ConstToEnum, WithNullEnum, AddNull;
    WrapTame(p);
    if p.Obj? {
      ConstTame(p.members);
      var m := ConstToEnum(p.members).value;
      WrapTame(Obj(m));
      EnumTame(m);
      if "type" in m {
        TypeTame(m);
        EnumTame(m["type" := AddNull(m["type"])]);
      }
    }
  }

  lemma WrapTame(p: Json)
    requires Tame(p)
    ensures Tame(Wrap(p))
  {
    var none: Members := map["type" := Str("null")];
    var variants := [p, Obj(none)];
    assert Tame(Obj(none)) && Tame(Arr(variants));
  }

  lemma ConstTame(m: Members)
    requires Tame(Obj(m)) && ConstToEnum(m).Some?
    ensures Tame(Obj(ConstToEnum(m).value))
  {
    hide EnumContains, TypeFits, Kind;
    if "const" in m {
      var out := ConstToEnum(m).value;
      assert Tame(m["const"]);
      assert Tame(out["enum"]);
      forall k | k in out ensures Tame(out[k]) { assert k in m ==> Tame(m[k]); }
    }
  }

  lemma TypeTame(m: Members)
    requires Tame(Obj(m)) && "type" in m
    ensures Tame(Obj(m["type" := AddNull(m["type"])]))
  {
    assert Tame(m["type"]);
    assert Tame(AddNull(m["type"]));
  }

  lemma EnumTame(m: Members)
    requires Tame(Obj(m))
    ensures Tame(Obj(WithNullEnum(m)))
  {
    if "enum" in m { assert Tame(m["enum"]); }
  }

  lemma NullablePlain(properties: Members, required: set<string>)
    requires Plain(properties) && Tame(Obj(properties)) && NullableProperties(properties, required).Some?
    ensures var nullable := NullableProperties(properties, required).value;
      Plain(nullable) && Tame(Obj(nullable)) && nullable.Keys == properties.Keys
  {
    var nullable := NullableProperties(properties, required).value;
    forall k | k in nullable
      ensures Tame(nullable[k]) && (nullable[k] == properties[k] || nullable[k].Obj?)
    {
      if k !in required { NullableTame(properties[k]); }
    }
    assert "properties" !in nullable;
  }

  lemma CloseObjectTame(typed: Members)
    requires Tame(Obj(typed)) && CloseObject(typed).Some?
    ensures Tame(Obj(CloseObject(typed).value))
  {
    hide NullableProperties, RequiredNames, IsObjectSchema;
    if IsObjectSchema(typed) {
      var out := CloseObject(typed).value;
      if "properties" in typed && typed["properties"].Obj? {
        assert Tame(typed["properties"]);
        NullablePlain(Properties(typed), RequiredNames(typed).value);
      }
      assert Tame(out["required"]);
      assert forall k | k in out :: Tame(out[k]);
    }
  }

  lemma RewriteTame(m: Members)
    requires Tame(Obj(m)) && Rewrite(m).Some?
    ensures Tame(Obj(Rewrite(m).value))
  {
    hide CloseObject;
    CloseObjectTame(NormalizeConst(m).value);
  }

  lemma CloseObjectKeeps(typed: Members, name: string)
    requires CloseObject(typed).Some? && name !in {"properties", "required", "additionalProperties"}
    ensures var out := CloseObject(typed).value;
      (name in out <==> name in typed) && (name in typed ==> out[name] == typed[name])
  {
    hide NullableProperties, RequiredNames, IsObjectSchema, SortedKeys;
  }

  /** Keywords that the rewriting of a schema does not concern are kept, whatever they are. */
  lemma OthersKept(m: Members, name: string)
    requires Rewrite(m).Some? && name !in {"type", "properties", "required", "additionalProperties"}
    ensures var out := Rewrite(m).value; (name in out <==> name in m) && (name in m ==> out[name] == m[name])
  {
    hide CloseObject, EnumContains, TypeFits, Kind;
    CloseObjectKeeps(NormalizeConst(m).value, name);
  }

  /** So are those of a property that is made nullable, unless it is wrapped as a whole. */
  lemma NullableOthersKept(m: Members, name: string)
    requires MakeNullable(Obj(m)).Some? && name !in {"type", "const", "enum"}
    ensures var q := MakeNullable(Obj(m)).value;
      || q == Wrap(Obj(m))
      || (q.Obj? && (name in q.members <==> name in m) && (name in m ==> q.members[name] == m[name]))
  {
    hide EnumContains, TypeFits, Kind, MentionsNull, AddNull, HasNullVariant;
    var n := ConstToEnum(m).value;
    assert (name in n <==> name in m) && (name in m ==> n[name] == m[name]);
    assert if "const" in m then "type" in n else n == m;
  }

  lemma RewriteKeeps(m: Members, name: string)
    requires Rewrite(m).Some? && name in {"const", "enum", "type"}
    ensures var typed := NormalizeConst(m).value;
      && (name in Rewrite(m).value <==> name in typed)
      && (name in typed ==> Rewrite(m).value[name] == typed[name])
      && (name != "type" ==> (name in typed <==> name in m) && (name in m ==> typed[name] == m[name]))
  {
    hide CloseObject, EnumContains, TypeFits, Kind;
    CloseObjectKeeps(NormalizeConst(m).value, name);
  }

  // ---- what closing does to a value ----

  lemma CloseShape(s: Json)
    requires Close(s).Some?
    ensures var out := Close(s).value;
      && (s.Arr? <==> out.Arr?) && (s.Obj? <==> out.Obj?)
      && (!s.Arr? && !s.Obj? ==> out == s)
      && (s.Arr? ==>
          |out.items| == |s.items| && forall i | 0 <= i < |s.items| :: Close(s.items[i]) == Some(out.items[i]))
  {
  }

  lemma CloseMembership(items: seq<Json>, v: Json)
    requires Close(Arr(items)).Some? && !v.Arr? && !v.Obj?
    ensures v in items <==> v in Close(Arr(items)).value.items
  {
    var out := Close(Arr(items)).value.items;
    forall i | 0 <= i < |items| ensures v == items[i] <==> v == out[i] {
      CloseShape(items[i]);
    }
    if v in items { var i :| 0 <= i < |items| && items[i] == v; assert out[i] == v; }
    if v in out { var i :| 0 <= i < |out| && out[i] == v; assert items[i] == v; }
  }

  lemma CloseStrings(names: seq<string>)
    ensures Close(Names(names)) == Some(Names(names))
  {
    var items := Names(names).items;
    assert seq(|items|, i requires 0 <= i < |items| => Close(items[i]).value) == items;
  }

  lemma ClosePlain(properties: Members)
    requires Plain(properties) && Close(Obj(properties)).Some?
    ensures Close(Obj(properties)).value.members.Keys == properties.Keys
  {
  }

  lemma RequiredIsAll(m: Members, keys: set<string>)
    requires "required" in m && m["required"] == Names(SortedKeys(keys))
    ensures RequiredNames(m) == Some(keys)
  {
    var names := SortedKeys(keys);
    var items := m["required"].items;
    assert (set i | 0 <= i < |items| :: items[i].s) == keys by {
      forall k | k in keys ensures exists i :: 0 <= i < |items| && items[i].s == k {
        var i :| 0 <= i < |names| && names[i] == k;
        assert items[i].s == k;
      }
    }
  }

  // ---- the fixed point ----

  /** The members of a normalised object and what they were just before the visit of its
      children. */
  ghost predicate Visited(m: Members, rewritten: Members, out: Members) {
    && Tame(Obj(m)) && Rewrite(m) == Some(rewritten)
    && out.Keys == rewritten.Keys
    && forall k | k in rewritten :: Close(rewritten[k]) == Some(out[k])
  }

  lemma SameFlag(m: Members, rewritten: Members, out: Members)
    requires Visited(m, rewritten, out)
    ensures IsObjectSchema(out) == IsObjectSchema(rewritten) == IsObjectSchema(NormalizeConst(m).value)
  {
    if "type" in rewritten {
      CloseShape(rewritten["type"]);
      if rewritten["type"].Arr? { CloseMembership(rewritten["type"].items, Str("object")); }
    }
  }

  /** When the step for constants succeeds, and what its result is then like. */
  lemma ConstNormalized(m: Members)
    requires "const" in m
    ensures NormalizeConst(m).Some? ==>
      && Kind(m["const"]).Some? && EnumContains(m, m["const"])
      && "type" in NormalizeConst(m).value
      && TypeIncludes(NormalizeConst(m).value["type"], Kind(m["const"]).value)
    ensures (Kind(m["const"]).Some? && EnumContains(m, m["const"])
      && "type" in m && TypeIncludes(m["type"], Kind(m["const"]).value)) ==> NormalizeConst(m) == Some(m)
  {
    hide Kind, EnumContains;
  }

  lemma ConstFixed(m: Members, rewritten: Members, out: Members)
    requires Visited(m, rewritten, out)
    ensures NormalizeConst(out) == Some(out)
  {
    hide NormalizeConst, CloseObject, Close, Tame, Kind, TypeIncludes, PrimitiveEqual;
    RewriteKeeps(m, "const");
    RewriteKeeps(m, "enum");
    RewriteKeeps(m, "type");
    if "const" in m {
      ConstNormalized(m);
      var c := m["const"];
      PrimitiveStays(c);
      TypeStays(NormalizeConst(m).value["type"], out["type"], Kind(c).value);
      if "enum" in m { EnumStays(m["enum"], out["enum"], c); }
      ConstNormalized(out);
    } else {
      NoConstant(out);
    }
  }

  lemma NoConstant(m: Members)
    requires "const" !in m
    ensures NormalizeConst(m) == Some(m)
  {
  }

  lemma PrimitiveStays(v: Json)
    requires Kind(v).Some?
    ensures Close(v) == Some(v)
  {
    CloseLeaf(v);
  }

  lemma TypeStays(before: Json, after: Json, kind: string)
    requires Close(before) == Some(after) && TypeIncludes(before, kind)
    ensures TypeIncludes(after, kind)
  {
    CloseShape(before);
    if before.Arr? {
      var i :| 0 <= i < |before.items| && before.items[i].Str? && PairCompatible(before.items[i].s, kind);
      CloseShape(before.items[i]);
      assert after.items[i].Str? && PairCompatible(after.items[i].s, kind);
    }
  }

  lemma EnumStays(before: Json, after: Json, c: Json)
    requires before.Arr? && Close(before) == Some(after)
    requires exists i | 0 <= i < |before.items| :: PrimitiveEqual(before.items[i], c)
    ensures after.Arr? && exists i | 0 <= i < |after.items| :: PrimitiveEqual(after.items[i], c)
  {
    var i :| 0 <= i < |before.items| && PrimitiveEqual(before.items[i], c);
    CloseShape(before);
    CloseShape(before.items[i]);
    assert PrimitiveEqual(after.items[i], c);
  }

  lemma RewrittenCloses(m: Members, rewritten: Members)
    requires Rewrite(m) == Some(rewritten) && IsObjectSchema(NormalizeConst(m).value)
    ensures "additionalProperties" in rewritten && rewritten["additionalProperties"] == Bool(false)
    ensures "required" in rewritten && rewritten["required"] == Names(SortedKeys(Properties(rewritten).Keys))
  {
    hide NormalizeConst, IsObjectSchema, RequiredNames, NullableProperties;
    NullableSameNames(Properties(NormalizeConst(m).value), RequiredNames(NormalizeConst(m).value).value);
  }

  lemma NullableSameNames(properties: Members, required: set<string>)
    ensures var r := NullableProperties(properties, required); r.Some? ==> r.value.Keys == properties.Keys
  {
  }

  lemma PropertiesStay(m: Members, rewritten: Members, out: Members)
    requires Visited(m, rewritten, out) && IsObjectSchema(rewritten)
    ensures Properties(out).Keys == Properties(rewritten).Keys
    ensures "additionalProperties" in out && out["additionalProperties"] == Bool(false)
    ensures "required" in out && out["required"] == Names(SortedKeys(Properties(out).Keys))
  {
    hide Rewrite, NormalizeConst, Close, SortedKeys;
    SameFlag(m, rewritten, out);
    RewriteTame(m);
    RewrittenCloses(m, rewritten);
    CloseShape(rewritten["additionalProperties"]);
    if "properties" in rewritten {
      CloseShape(rewritten["properties"]);
      if rewritten["properties"].Obj? { ClosePlain(rewritten["properties"].members); }
    }
    CloseStrings(SortedKeys(Properties(rewritten).Keys));
  }

  lemma AllRequired(properties: Members)
    ensures NullableProperties(properties, properties.Keys) == Some(properties)
  {
    assert !exists k | k in properties :: NullableProperty(properties[k], k in properties.Keys).None?;
    assert (map k | k in properties :: NullableProperty(properties[k], k in properties.Keys).value) == properties;
  }

  lemma CloseObjectFixed(out: Members)
    requires ClosedHere(out)
    ensures CloseObject(out) == Some(out)
  {
    hide NullableProperties, RequiredNames;
    if IsObjectSchema(out) {
      var properties := Properties(out);
      RequiredIsAll(out, properties.Keys);
      AllRequired(properties);
      assert out["additionalProperties" := Bool(false)] == out;
      assert "properties" in out && out["properties"].Obj? ==> out["properties" := Obj(properties)] == out;
      assert out["required" := Names(SortedKeys(properties.Keys))] == out;
    }
  }

  lemma RewriteFixed(m: Members, rewritten: Members, out: Members)
    requires Visited(m, rewritten, out)
    ensures Rewrite(out) == Some(out) && ClosedHere(out)
  {
    hide NormalizeConst, CloseObject;
    ConstFixed(m, rewritten, out);
    SameFlag(m, rewritten, out);
    if IsObjectSchema(out) { PropertiesStay(m, rewritten, out); }
    CloseObjectFixed(out);
  }

  lemma {:induction false} CloseFixed(s: Json)
    requires Tame(s) && Close(s).Some?
    ensures var out := Close(s).value; ClosedEverywhere(out) && Close(out) == Some(out)
    decreases Weight(s)
  {
    hide Rewrite;
    match s
    case Obj(m) =>
      var rewritten := Rewrite(m).value;
      var out := Close(s).value.members;
      RewriteShrinks(m);
      RewriteTame(m);
      forall k | k in rewritten ensures ClosedEverywhere(out[k]) && Close(out[k]) == Some(out[k]) {
        CloseFixed(rewritten[k]);
      }
      RewriteFixed(m, rewritten, out);
      CloseBy(out, out, out);
    case Arr(items) =>
      ItemsShrink(items);
      var out := Close(s).value.items;
      forall i | 0 <= i < |items| ensures ClosedEverywhere(out[i]) && Close(out[i]) == Some(out[i]) {
        CloseFixed(items[i]);
      }
      CloseItemsBy(out, out);
    case _ =>
  }

  lemma CloseLeaf(v: Json)
    requires !v.Arr? && !v.Obj?
    ensures Close(v) == Some(v)
  {
  }

  // ---- schemas that are normalised without complaint ----

  /** No keyword that the normaliser could object to, anywhere. */
  ghost predicate Gentle(v: Json) {
    match v
    case Obj(m) =>
      && "const" !in m && "additionalProperties" !in m && "required" !in m
      && forall k | k in m :: Gentle(m[k])
    case Arr(items) => forall i | 0 <= i < |items| :: Gentle(items[i])
    case _ => true
  }

  lemma NullableGentle(p: Json)
    requires Gentle(p)
    ensures MakeNullable(p).Some? && Gentle(MakeNullable(p).value)
  {
    WrapGentle(p);
    if p.Obj? {
      var m := p.members;
      EnumGentle(m);
      if "type" in m {
        var typed := m["type" := AddNull(m["type"])];
        assert Gentle(m["type"]);
        assert Gentle(typed["type"]);
        EnumGentle(typed);
      }
    }
  }

  lemma WrapGentle(p: Json)
    requires Gentle(p)
    ensures Gentle(Wrap(p))
  {
    var none: Members := map["type" := Str("null")];
    var variants := [p, Obj(none)];
    assert Gentle(Obj(none)) && Gentle(Arr(variants));
  }

  lemma EnumGentle(m: Members)
    requires Gentle(Obj(m))
    ensures Gentle(Obj(WithNullEnum(m)))
  {
    if "enum" in m { assert Gentle(m["enum"]); }
  }

  lemma NullableAllGentle(properties: Members)
    requires Gentle(Obj(properties))
    ensures NullableProperties(properties, {}).Some? && Gentle(Obj(NullableProperties(properties, {}).value))
  {
    hide MakeNullable;
    forall k | k in properties
      ensures NullableProperty(properties[k], false).Some? && Gentle(NullableProperty(properties[k], false).value)
    {
      NullableGentle(properties[k]);
    }
    assert forall k | k in properties :: (k in {}) == false;
  }

  lemma GentleRewrites(m: Members)
    requires Gentle(Obj(m))
    ensures Rewrite(m).Some?
    ensures forall k | k in Rewrite(m).value ::
      Gentle(Rewrite(m).value[k]) || (k == "required" && exists names :: Rewrite(m).value[k] == Names(names))
  {
    hide NullableProperties;
    if "properties" in m && m["properties"].Obj? { assert Gentle(m["properties"]); }
    NullableAllGentle(Properties(m));
  }

  lemma {:induction false} GentleCloses(s: Json)
    requires Gentle(s)
    ensures Close(s).Some?
    decreases Weight(s)
  {
    hide Rewrite, Names;
    match s
    case Obj(m) =>
      GentleRewrites(m);
      RewriteShrinks(m);
      var rw := Rewrite(m).value;
      forall k | k in rw ensures Close(rw[k]).Some? {
        if Gentle(rw[k]) {
          GentleCloses(rw[k]);
        } else {
          var names :| rw[k] == Names(names);
          CloseStrings(names);
        }
      }
    case Arr(items) =>
      ItemsShrink(items);
      forall i | 0 <= i < |items| ensures Close(items[i]).Some? { GentleCloses(items[i]); }
    case _ =>
  }
}
