/** The two directions of the correspondence between a schema and its normalised form. */
module SchemaCorrespondence {
  import opened Json
  import opened SchemaNormalizer
  import opened SchemaFixpoint
  import opened SchemaMeaning

  // ---- how the parts of a normalised schema come about ----

  ghost function Req(m: Members): set<string> {
    if RequiredNames(m).Some? then RequiredNames(m).value else {}
  }

  ghost predicate SameMember(k: string, m: Members, out: Members) {
    (k in out <==> k in m) && (k in m ==> out[k] == m[k])
  }

  ghost predicate TypeCloses(m: Members, out: Members) {
    && ("type" in m ==> "type" in out && out["type"] == m["type"])
    && ("type" in out && "type" !in m ==>
        "const" in m && Kind(m["const"]).Some? && out["type"] == Str(Kind(m["const"]).value))
  }

  ghost predicate PropertyCloses(m: Members, out: Members, k: string)
    requires k in Properties(m) && k in Properties(out)
  {
    var q := NullableProperty(Properties(m)[k], k in Req(m));
    q.Some? && Weight(q.value) < Weight(Obj(m)) && Close(q.value) == Some(Properties(out)[k])
  }

  ghost predicate ObjectCloses(m: Members, out: Members) {
    if IsObjectSchema(m) then
      && "additionalProperties" in out && out["additionalProperties"] == Bool(false)
      && "required" in out && out["required"] == Names(SortedKeys(Properties(m).Keys))
      && Req(m) <= Properties(m).Keys
      && ("properties" in m <==> "properties" in out)
      && Properties(out).Keys == Properties(m).Keys
      && (forall k | k in Properties(m) :: PropertyCloses(m, out, k))
    else
      && SameMember("additionalProperties", m, out)
      && "required" !in out && "properties" !in out
  }

  ghost predicate ItemsClose(m: Members, out: Members) {
    && ("items" in out <==> "items" in m)
    && ("items" in m ==> Weight(m["items"]) < Weight(Obj(m)) && Close(m["items"]) == Some(out["items"]))
  }

  /** What becomes of an object of the fragment that is not an `anyOf`. */
  ghost predicate Closes(m: Members, out: Members) {
    && "anyOf" !in m && "anyOf" !in out
    && SameMember("const", m, out) && SameMember("enum", m, out)
    && TypeCloses(m, out) && ItemsClose(m, out) && ObjectCloses(m, out)
  }

  lemma PrimitivesClose(items: seq<Json>)
    requires forall i | 0 <= i < |items| :: !items[i].Arr? && !items[i].Obj?
    ensures Close(Arr(items)) == Some(Arr(items))
  {
    forall i | 0 <= i < |items| ensures Close(items[i]) == Some(items[i]) { CloseLeaf(items[i]); }
    CloseItemsBy(items, items);
  }

  /** The keywords that hold no schema are left alone by the recursion. */
  lemma KeywordCloses(k: string, v: Json)
    requires Keyword(k, v) && k in {"type", "const", "enum", "required", "additionalProperties"}
    ensures Close(v) == Some(v)
  {
    if v.Arr? { PrimitivesClose(v.items); } else { CloseLeaf(v); }
  }

  lemma NullableFragment(p: Json, required: bool)
    requires Fragment(p) && NullableProperty(p, required).Some?
    ensures Fragment(NullableProperty(p, required).value)
  {
    if !required { NullableMeans(p, Null); }
  }

  lemma TypedFlags(m: Members)
    requires Fragment(Obj(m)) && NormalizeConst(m).Some?
    ensures var typed := NormalizeConst(m).value;
      && IsObjectSchema(typed) == IsObjectSchema(m)
      && Properties(typed) == Properties(m) && RequiredNames(typed) == RequiredNames(m)
      && (forall k | k in typed && k != "type" :: k in m && typed[k] == m[k])
      && (forall k | k in m :: k in typed && typed[k] == m[k])
      && TypeCloses(m, typed)
      && Fragment(Obj(typed))
  {
    FragmentKeyword(m);
    var typed := NormalizeConst(m).value;
    forall k | k in typed ensures Keyword(k, typed[k]) {}
  }

  ghost predicate ObjectRewrites(m: Members, rw: Members) {
    if IsObjectSchema(m) then
      && "additionalProperties" in rw && rw["additionalProperties"] == Bool(false)
      && "required" in rw && rw["required"] == Names(SortedKeys(Properties(m).Keys))
      && RequiredNames(m).Some? && RequiredNames(m).value <= Properties(m).Keys
      && ("properties" in m <==> "properties" in rw) && ("properties" in rw ==> rw["properties"].Obj?)
      && NullableProperties(Properties(m), RequiredNames(m).value) == Some(Properties(rw))
    else
      SameMember("additionalProperties", m, rw) && "required" !in rw && "properties" !in rw
  }

  lemma CloseObjectParts(t: Members)
    requires CloseObject(t).Some? && ("properties" in t ==> t["properties"].Obj?)
    ensures var rw := CloseObject(t).value;
      && (forall k | k !in {"properties", "required", "additionalProperties"} :: SameMember(k, t, rw))
      && ObjectRewrites(t, rw)
  {
    hide NullableProperties, RequiredNames;
    if IsObjectSchema(t) {
      var properties := NullableProperties(Properties(t), RequiredNames(t).value).value;
      var rw := CloseObject(t).value;
      if "properties" in t {
        assert rw["properties"] == Obj(properties);
      } else {
      }
      NullableSameNames(Properties(t), RequiredNames(t).value);
    }
  }

  lemma RewriteParts(m: Members)
    requires Fragment(Obj(m)) && Rewrite(m).Some?
    ensures var rw := Rewrite(m).value;
      && (forall k | k !in {"type", "properties", "required", "additionalProperties"} :: SameMember(k, m, rw))
      && TypeCloses(m, rw) && ObjectRewrites(m, rw)
  {
    hide NormalizeConst, CloseObject, NullableProperties, RequiredNames, Fragment, IsObjectSchema;
    TypedFlags(m);
    FragmentKeyword(m);
    var typed, rw := NormalizeConst(m).value, Rewrite(m).value;
    CloseObjectParts(typed);
    forall k | k !in {"type", "properties", "required", "additionalProperties"} ensures SameMember(k, m, rw) {
      assert SameMember(k, typed, rw);
    }
    assert SameMember("type", typed, rw);
  }

  lemma ChildrenClose(m: Members, out: Members)
    requires Close(Obj(m)) == Some(Obj(out))
    ensures Rewrite(m).Some?
    ensures var rw := Rewrite(m).value;
      out.Keys == rw.Keys && forall k | k in rw :: Close(rw[k]) == Some(out[k]) && Weight(rw[k]) < Weight(Obj(m))
  {
    hide Rewrite, Weight;
    RewriteShrinks(m);
  }

  lemma PlainRewrite(properties: Members)
    requires Plain(properties)
    ensures Rewrite(properties) == Some(properties)
  {
  }

  /** The `properties` map is visited as if it were a schema, and comes out with the same
      names over closed schemas. */
  lemma PropertiesClose(rw: Members, out: Members)
    requires "properties" in rw && rw["properties"].Obj? && Plain(rw["properties"].members)
    requires "properties" in out && Close(rw["properties"]) == Some(out["properties"])
    ensures out["properties"].Obj? && Properties(out).Keys == Properties(rw).Keys
    ensures forall k | k in Properties(rw) ::
      Close(Properties(rw)[k]) == Some(Properties(out)[k]) && Weight(Properties(rw)[k]) < Weight(rw["properties"])
  {
    hide Weight, Rewrite, Plain;
    CloseShape(rw["properties"]);
    PlainRewrite(Properties(rw));
    ChildrenClose(Properties(rw), Properties(out));
  }

  lemma NullablePropertiesPlain(m: Members, rw: Members)
    requires Fragment(Obj(m)) && "properties" in m && ObjectRewrites(m, rw)
    ensures Plain(Properties(rw)) && Properties(rw).Keys == Properties(m).Keys
    ensures forall k | k in Properties(m) :: NullableProperty(Properties(m)[k], k in Req(m)) == Some(Properties(rw)[k])
  {
    hide MakeNullable, RequiredNames;
    FragmentKeyword(m);
    NullableSameNames(Properties(m), Req(m));
    var nullable := Properties(rw);
    if "type" in nullable {
      assert Fragment(Properties(m)["type"]);
      NullableFragment(Properties(m)["type"], "type" in Req(m));
    }
  }

  lemma CloseParts(m: Members, out: Members)
    requires Fragment(Obj(m)) && Close(Obj(m)) == Some(Obj(out)) && "anyOf" !in m
    ensures Closes(m, out)
  {
    hide Rewrite, Weight, Close, Fragment, RequiredNames, NullableProperties, NullableProperty, Plain;
    FragmentKeyword(m);
    ChildrenClose(m, out);
    RewriteParts(m);
    var rw := Rewrite(m).value;
    assert SameMember("anyOf", m, rw) && SameMember("const", m, rw);
    assert SameMember("enum", m, rw) && SameMember("items", m, rw);
    forall k | k in {"const", "enum"} && k in m ensures out[k] == m[k] { KeywordCloses(k, m[k]); }
    if "type" in rw { KeywordCloses("type", rw["type"]); }
    ObjectParts(m, rw, out);
  }

  lemma ObjectParts(m: Members, rw: Members, out: Members)
    requires Fragment(Obj(m)) && ObjectRewrites(m, rw) && out.Keys == rw.Keys
    requires forall k | k in rw :: Close(rw[k]) == Some(out[k]) && Weight(rw[k]) < Weight(Obj(m))
    ensures ObjectCloses(m, out)
  {
    hide Rewrite, Weight, Close, Fragment, RequiredNames, NullableProperties, NullableProperty, Plain;
    FragmentKeyword(m);
    if "additionalProperties" in rw { CloseLeaf(rw["additionalProperties"]); }
    if IsObjectSchema(m) {
      CloseStrings(SortedKeys(Properties(m).Keys));
      if "properties" in m {
        NullablePropertiesPlain(m, rw);
        assert rw["properties"].Obj?;
        PropertiesClose(rw, out);
      }
    }
  }

  // ---- from the closed schema back: delete null members that were optional ----

  ghost predicate Accepts(s: Json, v: Json) {
    Close(s).Some? && Valid(Close(s).value, v)
  }

  /** The instance without its null members at properties that were optional in the
      original schema. */
  ghost function Strip(s: Json, v: Json): Json
    decreases s
  {
    if !s.Obj? then v
    else
      var m := s.members;
      if "anyOf" in m && m["anyOf"].Arr? then
        if exists i :: 0 <= i < |m["anyOf"].items| && Accepts(m["anyOf"].items[i], v) then
          var i :| 0 <= i < |m["anyOf"].items| && Accepts(m["anyOf"].items[i], v);
          Strip(m["anyOf"].items[i], v)
        else v
      else match v
        case Arr(items) =>
          if "items" in m
          then Arr(seq(|items|, i requires 0 <= i < |items| => Strip(m["items"], items[i])))
          else v
        case Obj(members) =>
          if "properties" in m && m["properties"].Obj? then
            Obj(map k | k in members && !Deleted(m, members, k) ::
              if k in m["properties"].members then Strip(m["properties"].members[k], members[k]) else members[k])
          else v
        case _ => v
  }

  ghost predicate Deleted(m: Members, members: Members, k: string)
    requires k in members
  {
    k in Properties(m) && k !in Req(m) && members[k] == Null
  }

  lemma {:induction false} StripKeepsKind(s: Json, v: Json)
    ensures var w := Strip(s, v); (w.Obj? <==> v.Obj?) && (w.Arr? <==> v.Arr?) && (!v.Obj? && !v.Arr? ==> w == v)
    decreases s
  {
    if s.Obj? && "anyOf" in s.members && s.members["anyOf"].Arr? {
      var items := s.members["anyOf"].items;
      forall i | 0 <= i < |items|
        ensures var w := Strip(items[i], v);
          (w.Obj? <==> v.Obj?) && (w.Arr? <==> v.Arr?) && (!v.Obj? && !v.Arr? ==> w == v)
      {
        StripKeepsKind(items[i], v);
      }
    }
  }

  lemma StripObject(m: Members, members: Members)
    requires "anyOf" !in m
    ensures Strip(Obj(m), Obj(members)).Obj?
    ensures var out := Strip(Obj(m), Obj(members)).members;
      && (forall k :: k in out <==> k in members && !Deleted(m, members, k))
      && (forall k | k in out ::
            out[k] == if k in Properties(m) then Strip(Properties(m)[k], members[k]) else members[k])
  {
  }

  lemma StripArray(m: Members, items: seq<Json>)
    requires "anyOf" !in m && "items" in m
    ensures Strip(Obj(m), Arr(items)).Arr?
    ensures var out := Strip(Obj(m), Arr(items)).items;
      |out| == |items| && forall i | 0 <= i < |items| :: out[i] == Strip(m["items"], items[i])
  {
  }

  lemma StripAnyOf(variants: seq<Json>, m: Members, v: Json) returns (i: nat)
    requires "anyOf" in m && m["anyOf"] == Arr(variants)
    requires exists i :: 0 <= i < |variants| && Accepts(variants[i], v)
    ensures i < |variants| && Accepts(variants[i], v) && Strip(Obj(m), v) == Strip(variants[i], v)
  {
    i :| 0 <= i < |variants| && Accepts(variants[i], v) && Strip(Obj(m), v) == Strip(variants[i], v);
  }

  /** An `anyOf` standing alone is closed variant by variant. */
  lemma AnyOfCloses(m: Members, variants: seq<Json>, out: Json)
    requires m == map["anyOf" := Arr(variants)] && Close(Obj(m)) == Some(out)
    ensures out.Obj? && "anyOf" in out.members && out.members["anyOf"].Arr?
    ensures out.members == map["anyOf" := out.members["anyOf"]]
    ensures var closed := out.members["anyOf"].items;
      |closed| == |variants|
      && forall i | 0 <= i < |variants| :: Close(variants[i]) == Some(closed[i]) && Weight(variants[i]) < Weight(Obj(m))
  {
    hide Weight, Close, Rewrite;
    AloneRewrite(m);
    CloseShape(Obj(m));
    ChildrenClose(m, out.members);
    CloseShape(Arr(variants));
    ItemsShrink(variants);
  }

  lemma AloneRewrite(m: Members)
    requires m.Keys == {"anyOf"}
    ensures Rewrite(m) == Some(m)
  {
  }

  lemma AnyOfAccepts(variants: seq<Json>, v: Json)
    requires Accepts(Obj(map["anyOf" := Arr(variants)]), v)
    ensures exists i :: 0 <= i < |variants| && Accepts(variants[i], v)
  {
    hide Close, Valid, Weight;
    var m: Members := map["anyOf" := Arr(variants)];
    var out := Close(Obj(m)).value;
    AnyOfCloses(m, variants, out);
    var closed := out.members["anyOf"].items;
    AnyOfMeans(closed, v);
    var i :| 0 <= i < |closed| && Valid(closed[i], v);
    assert Accepts(variants[i], v);
  }

  lemma SameInsideStrip(m: Members, n: Members, v: Json)
    requires SameInside(m, n) && "anyOf" !in m
    ensures Strip(Obj(m), v) == Strip(Obj(n), v)
  {
    NoAnyOf(m, n);
    assert "properties" in m <==> "properties" in n;
    assert "required" in m <==> "required" in n;
    assert "items" in m <==> "items" in n;
    if v.Obj? {
      StripObject(m, v.members);
      StripObject(n, v.members);
      var a, b := Strip(Obj(m), v).members, Strip(Obj(n), v).members;
      assert forall k | k in v.members :: Deleted(m, v.members, k) <==> Deleted(n, v.members, k);
      assert a.Keys == b.Keys;
      assert a == b;
    } else if v.Arr? && "items" in m {
      StripArray(m, v.items);
      StripArray(n, v.items);
      assert Strip(Obj(m), v).items == Strip(Obj(n), v).items;
    }
  }

  lemma StripWrap(p: Json, v: Json)
    requires v != Null && Accepts(Wrap(p), v)
    ensures Strip(Wrap(p), v) == Strip(p, v)
  {
    hide Close, Valid, Strip;
    var nulls := Obj(map["type" := Str("null")]);
    var variants := [p, nulls];
    AnyOfAccepts(variants, v);
    var i := StripAnyOf(variants, Wrap(p).members, v);
    NullSchema(v);
    NullCloses();
    assert i == 0;
  }

  lemma NullCloses()
    ensures var nulls := Obj(map["type" := Str("null")]); Close(nulls) == Some(nulls)
  {
    var m: Members := map["type" := Str("null")];
    CloseLeaf(Str("null"));
    assert Rewrite(m) == Some(m);
    CloseBy(m, m, m);
  }

  lemma NullableInside(p: Json)
    requires Fragment(p) && MakeNullable(p).Some?
    ensures var q := MakeNullable(p).value;
      q == p || q == Wrap(p)
      || (p.Obj? && q.Obj? && "anyOf" !in p.members && SameInside(p.members, q.members)
          && IsObjectSchema(p.members) == IsObjectSchema(q.members))
  {
    hide Fragment, NullableMembers, ConstToEnum, SameInside, IsObjectSchema;
    FragmentShape(p);
    if p.Obj? {
      var m := p.members;
      NullableCases(m);
      if "anyOf" !in m {
        ConstFragment(m);
        var n := ConstToEnum(m).value;
        ConstFlag(m);
        if "const" in m { ConstInside(m); }
        if "type" in n {
          TypedInside(n);
          TypedFlag(n);
          InsideTransitive(m, n, NullableMembers(n).members);
        }
      }
    }
  }

  lemma ConstFlag(m: Members)
    requires ConstToEnum(m).Some?
    ensures IsObjectSchema(ConstToEnum(m).value) == IsObjectSchema(m)
  {
  }

  lemma TypedFlag(m: Members)
    requires Fragment(Obj(m)) && "type" in m && "anyOf" !in m
    ensures NullableMembers(m).Obj? && IsObjectSchema(NullableMembers(m).members) == IsObjectSchema(m)
  {
    var t := AddNull(m["type"]);
    if m["type"].Str? {
      assert t.items[0] == m["type"];
    } else {
      assert Str("object") in m["type"].items <==> Str("object") in t.items;
    }
    TypedInside(m);
  }

  lemma InsideTransitive(a: Members, b: Members, c: Members)
    requires (a == b || SameInside(a, b)) && SameInside(b, c)
    ensures SameInside(a, c)
  {
  }

  lemma StripNullable(p: Json, v: Json)
    requires Fragment(p) && MakeNullable(p).Some? && v != Null && Accepts(MakeNullable(p).value, v)
    ensures Strip(MakeNullable(p).value, v) == Strip(p, v)
  {
    hide Fragment, MakeNullable, Close, Valid, Strip, SameInside;
    NullableInside(p);
    var q := MakeNullable(p).value;
    if q == Wrap(p) {
      StripWrap(p, v);
    } else if q != p {
      SameInsideStrip(p.members, q.members, v);
    }
  }

  lemma TypeOkKind(t: Json, v: Json, w: Json)
    requires (v.Obj? && w.Obj?) || (v.Arr? && w.Arr?) || v == w
    ensures TypeOk(t, v) ==> TypeOk(t, w)
  {
    if t.Arr? && TypeOk(t, v) {
      var i :| 0 <= i < |t.items| && t.items[i].Str? && TypeAllows(t.items[i].s, v);
      assert TypeAllows(t.items[i].s, w);
    }
  }

  lemma ValidParts(m: Members, v: Json)
    requires "anyOf" !in m
    ensures Valid(Obj(m), v) <==>
      && LocalOk(m, v)
      && (v.Obj? ==> forall k | k in Properties(m) && k in v.members :: Valid(Properties(m)[k], v.members[k]))
      && (v.Arr? && "items" in m ==> forall i | 0 <= i < |v.items| :: Valid(m["items"], v.items[i]))
  {
  }

  ghost predicate PartsStripped(m: Members, v: Json) {
    && (v.Obj? ==> forall k | k in Properties(m) && k in v.members && !Deleted(m, v.members, k) ::
          Valid(Properties(m)[k], Strip(Properties(m)[k], v.members[k])))
    && (v.Arr? && "items" in m ==> forall i | 0 <= i < |v.items| :: Valid(m["items"], Strip(m["items"], v.items[i])))
  }

  lemma RequiredCovers(required: Json, names: set<string>, members: Members)
    requires required == Names(SortedKeys(names)) && RequiredOk(required, members)
    ensures names <= members.Keys
  {
    var sorted := SortedKeys(names);
    forall k | k in names ensures k in members {
      var i :| 0 <= i < |sorted| && sorted[i] == k;
      assert required.items[i].s == k;
    }
  }

  lemma ReqMember(m: Members, i: nat)
    requires "required" in m && Strings(m["required"]) && i < |m["required"].items|
    ensures m["required"].items[i].s in Req(m)
  {
  }

  lemma StripDeclared(m: Members, out: Members, v: Json)
    requires Fragment(Obj(m)) && ObjectCloses(m, out) && "anyOf" !in m && v.Obj? && LocalOk(out, v)
    ensures var w := Strip(Obj(m), v);
      && w.Obj?
      && ("required" in m ==> RequiredOk(m["required"], w.members))
      && ("additionalProperties" in m && m["additionalProperties"] == Bool(false) ==>
          w.members.Keys <= Properties(m).Keys)
  {
    hide Fragment, Strip, RequiredNames, PropertyCloses, TypeOk, EnumOk, Same;
    FragmentKeyword(m);
    StripObject(m, v.members);
    if IsObjectSchema(m) {
      RequiredCovers(out["required"], Properties(m).Keys, v.members);
      if "required" in m {
        var items := m["required"].items;
        forall i | 0 <= i < |items| ensures items[i].s in Strip(Obj(m), v).members {
          ReqMember(m, i);
        }
      }
    }
  }

  lemma StripLocal(m: Members, out: Members, v: Json)
    requires Fragment(Obj(m)) && Closes(m, out) && LocalOk(out, v)
    ensures LocalOk(m, Strip(Obj(m), v))
  {
    hide Fragment, Strip, TypeOk, RequiredOk, ObjectCloses, ItemsClose, Properties;
    FragmentKeyword(m);
    StripKeepsKind(Obj(m), v);
    if "type" in m { TypeOkKind(m["type"], v, Strip(Obj(m), v)); }
    if v.Obj? { StripDeclared(m, out, v); }
  }

  lemma StripObjectSound(m: Members, out: Members, v: Json)
    requires Fragment(Obj(m)) && Closes(m, out) && Valid(Obj(out), v) && PartsStripped(m, v)
    ensures Valid(Obj(m), Strip(Obj(m), v))
  {
    hide Fragment, Strip, Valid, LocalOk, Deleted;
    ValidParts(out, v);
    StripLocal(m, out, v);
    StripKeepsKind(Obj(m), v);
    if v.Obj? { StripObject(m, v.members); }
    if v.Arr? && "items" in m { StripArray(m, v.items); }
    ValidParts(m, Strip(Obj(m), v));
  }

  /** Any instance the normalised schema accepts becomes valid under the original one once
      its null members at originally optional properties are deleted. */
  lemma {:induction false} StripSound(s: Json, v: Json)
    requires Fragment(s) && Accepts(s, v)
    ensures Valid(s, Strip(s, v))
    decreases Weight(s)
  {
    hide Fragment, Strip, Valid, Weight, Close, Keyword, NullableProperty, Properties;
    FragmentShape(s);
    if s.Bool? {
      StripBool(s, v);
    } else if "anyOf" in s.members {
      var variants := s.members["anyOf"];
      FragmentKeyword(s.members);
      AnyOfFragment(s.members);
      AnyOfAccepts(variants.items, v);
      AnyOfCloses(s.members, variants.items, Close(s).value);
      var i := StripAnyOf(variants.items, s.members, v);
      StripSound(variants.items[i], v);
      AnyOfMeans(variants.items, Strip(s, v));
    } else {
      var m := s.members;
      CloseShape(s);
      var out := Close(s).value.members;
      CloseParts(m, out);
      ValidParts(out, v);
      FragmentKeyword(m);
      if v.Obj? {
        forall k | k in Properties(m) && k in v.members && !Deleted(m, v.members, k)
          ensures Valid(Properties(m)[k], Strip(Properties(m)[k], v.members[k]))
        {
          StripMember(m, out, k);
          var q := NullableProperty(Properties(m)[k], k in Req(m)).value;
          StripSound(q, v.members[k]);
          StripRequired(m, k, v.members[k]);
        }
      }
      if v.Arr? && "items" in m {
        ItemsFragment(m);
        forall i | 0 <= i < |v.items| ensures Valid(m["items"], Strip(m["items"], v.items[i])) {
          StripSound(m["items"], v.items[i]);
        }
      }
      StripObjectSound(m, out, v);
    }
  }

  lemma StripBool(s: Json, v: Json)
    requires s.Bool? && Accepts(s, v)
    ensures Valid(s, Strip(s, v))
  {
  }

  lemma AnyOfFragment(m: Members)
    requires Fragment(Obj(m)) && "anyOf" in m
    ensures m["anyOf"].Arr? && m == map["anyOf" := m["anyOf"]]
    ensures forall i | 0 <= i < |m["anyOf"].items| :: Fragment(m["anyOf"].items[i])
  {
    assert Keyword("anyOf", m["anyOf"]);
  }

  lemma ItemsFragment(m: Members)
    requires Fragment(Obj(m)) && "items" in m
    ensures Fragment(m["items"])
  {
    assert Keyword("items", m["items"]);
  }

  lemma PropertyFragment(m: Members, k: string)
    requires Fragment(Obj(m)) && k in Properties(m)
    ensures Fragment(Properties(m)[k])
  {
    assert Keyword("properties", m["properties"]);
  }

  lemma StripMember(m: Members, out: Members, k: string)
    requires Fragment(Obj(m)) && Closes(m, out) && k in Properties(m)
    ensures k in Properties(out) && PropertyCloses(m, out, k)
    ensures Fragment(NullableProperty(Properties(m)[k], k in Req(m)).value)
  {
    hide Fragment, MakeNullable, RequiredNames, Weight, Close;
    PropertyFragment(m, k);
    assert IsObjectSchema(m);
    NullableFragment(Properties(m)[k], k in Req(m));
  }

  /** Stripping along the nullable form of a property is stripping along the property. */
  lemma StripRequired(m: Members, k: string, x: Json)
    requires Fragment(Obj(m)) && k in Properties(m) && (k in Req(m) || x != Null)
    requires NullableProperty(Properties(m)[k], k in Req(m)).Some?
    requires var q := NullableProperty(Properties(m)[k], k in Req(m)).value;
      Accepts(q, x) && Valid(q, Strip(q, x))
    ensures Valid(Properties(m)[k], Strip(Properties(m)[k], x))
  {
    hide Fragment, Strip, Valid, Close, MakeNullable, Weight;
    var p := Properties(m)[k];
    PropertyFragment(m, k);
    if k !in Req(m) {
      StripNullable(p, x);
      StripKeepsKind(p, x);
      NullableMeans(p, Strip(p, x));
    }
  }

  // ---- from the original schema forward: fill missing optional members with null ----

  /** The instance has no members beyond those its object schemas declare. */
  ghost predicate NoExtra(s: Json, v: Json)
    decreases s
  {
    s.Obj? ==>
      var m := s.members;
      if "anyOf" in m && m["anyOf"].Arr? then
        exists i :: 0 <= i < |m["anyOf"].items| && Valid(m["anyOf"].items[i], v) && NoExtra(m["anyOf"].items[i], v)
      else
        && (v.Arr? && "items" in m ==> forall i | 0 <= i < |v.items| :: NoExtra(m["items"], v.items[i]))
        && (v.Obj? && IsObjectSchema(m) ==> v.members.Keys <= Properties(m).Keys)
        && (v.Obj? && "properties" in m && m["properties"].Obj? ==>
            forall k | k in m["properties"].members && k in v.members ::
              NoExtra(m["properties"].members[k], v.members[k]))
  }

  ghost predicate Takes(s: Json, v: Json) {
    Valid(s, v) && NoExtra(s, v)
  }

  /** The instance with every declared member present, null where it was missing. */
  ghost function Fill(s: Json, v: Json): Json
    decreases s
  {
    if !s.Obj? then v
    else
      var m := s.members;
      if "anyOf" in m && m["anyOf"].Arr? then
        if exists i :: 0 <= i < |m["anyOf"].items| && Takes(m["anyOf"].items[i], v) then
          var i :| 0 <= i < |m["anyOf"].items| && Takes(m["anyOf"].items[i], v);
          Fill(m["anyOf"].items[i], v)
        else v
      else match v
        case Arr(items) =>
          if "items" in m
          then Arr(seq(|items|, i requires 0 <= i < |items| => Fill(m["items"], items[i])))
          else v
        case Obj(members) =>
          if "properties" in m && m["properties"].Obj? then
            Obj(map k | k in members.Keys + m["properties"].members.Keys ::
              if k !in members then Null
              else if k in m["properties"].members then Fill(m["properties"].members[k], members[k])
              else members[k])
          else v
        case _ => v
  }

  /** A schema that accepts null, read off its keywords. */
  ghost predicate AdmitsNull(s: Json)
    decreases s
  {
    match s
    case Bool(b) => b
    case Obj(m) =>
      && ("type" in m ==> MentionsNull(m["type"]))
      && ("const" in m ==> m["const"] == Null)
      && ("enum" in m && m["enum"].Arr? ==> Null in m["enum"].items)
      && ("anyOf" in m && m["anyOf"].Arr? ==>
          exists i | 0 <= i < |m["anyOf"].items| :: AdmitsNull(m["anyOf"].items[i]))
    case _ => false
  }

  /** Every optional property that is an `anyOf` with a null variant does accept null. */
  ghost predicate NullReady(s: Json)
    decreases s
  {
    s.Obj? ==>
      var m := s.members;
      && ("anyOf" in m && m["anyOf"].Arr? ==> forall i | 0 <= i < |m["anyOf"].items| :: NullReady(m["anyOf"].items[i]))
      && ("items" in m ==> NullReady(m["items"]))
      && ("properties" in m && m["properties"].Obj? ==>
          forall k | k in m["properties"].members ::
            && NullReady(m["properties"].members[k])
            && (k !in Req(m) && KeptAnyOf(m["properties"].members[k]) ==> AdmitsNull(m["properties"].members[k])))
  }

  /** The instance lacks, at some place that the schema reaches through items and properties, an
      optional property that null may not stand for. */
  ghost predicate Lacks(s: Json, v: Json)
    decreases s
  {
    && s.Obj? && "anyOf" !in s.members
    && var m := s.members;
      || (v.Obj? && exists k | k in Properties(m) :: MissesUnready(m, v.members, k))
      || (v.Obj? && "properties" in m && m["properties"].Obj? &&
          exists k | k in m["properties"].members && k in v.members ::
            Lacks(m["properties"].members[k], v.members[k]))
      || (v.Arr? && "items" in m && exists i | 0 <= i < |v.items| :: Lacks(m["items"], v.items[i]))
  }

  ghost predicate MissesUnready(m: Members, members: Members, k: string)
    requires k in Properties(m)
  {
    k !in members && k !in Req(m) && KeptAnyOf(Properties(m)[k]) && !AdmitsNull(Properties(m)[k])
  }

  /** The same, and also inside any variant of an `anyOf` that takes the instance. */
  ghost predicate Short(s: Json, v: Json)
    decreases s
  {
    && s.Obj?
    && var m := s.members;
      if "anyOf" in m && m["anyOf"].Arr? then
        exists i | 0 <= i < |m["anyOf"].items| :: Takes(m["anyOf"].items[i], v) && Short(m["anyOf"].items[i], v)
      else
        || (v.Obj? && exists k | k in Properties(m) :: MissesUnready(m, v.members, k))
        || (v.Obj? && "properties" in m && m["properties"].Obj? &&
            exists k | k in m["properties"].members && k in v.members ::
              Short(m["properties"].members[k], v.members[k]))
        || (v.Arr? && "items" in m && exists i | 0 <= i < |v.items| :: Short(m["items"], v.items[i]))
  }

  lemma {:induction false} AdmitsNullValid(s: Json)
    requires Fragment(s)
    ensures AdmitsNull(s) <==> Valid(s, Null)
    decreases s
  {
    if s.Obj? {
      var m := s.members;
      FragmentKeyword(m);
      if "type" in m { NullType(m["type"]); }
      if "enum" in m { NullInEnum(m["enum"]); }
      if "anyOf" in m {
        AnyOfFragment(m);
        forall i | 0 <= i < |m["anyOf"].items|
          ensures AdmitsNull(m["anyOf"].items[i]) <==> Valid(m["anyOf"].items[i], Null)
        {
          AdmitsNullValid(m["anyOf"].items[i]);
        }
      }
    }
  }

  lemma NullType(t: Json)
    requires t.Str? || Strings(t)
    ensures MentionsNull(t) <==> TypeOk(t, Null)
  {
    if t.Arr? {
      if Str("null") in t.items { AddNullMeans(t, Null); }
      if TypeOk(t, Null) {
        var i :| 0 <= i < |t.items| && TypeAllows(t.items[i].s, Null);
        assert t.items[i] == Str("null");
      }
    }
  }

  lemma NullInEnum(e: Json)
    requires e.Arr?
    ensures Null in e.items <==> EnumOk(e, Null)
  {
    if Null in e.items {
      var i :| 0 <= i < |e.items| && e.items[i] == Null;
      assert Same(Null, e.items[i]);
    }
  }

  lemma {:induction false} FillKeepsKind(s: Json, v: Json)
    ensures var w := Fill(s, v); (w.Obj? <==> v.Obj?) && (w.Arr? <==> v.Arr?) && (!v.Obj? && !v.Arr? ==> w == v)
    decreases s
  {
    if s.Obj? && "anyOf" in s.members && s.members["anyOf"].Arr? {
      var items := s.members["anyOf"].items;
      forall i | 0 <= i < |items|
        ensures var w := Fill(items[i], v);
          (w.Obj? <==> v.Obj?) && (w.Arr? <==> v.Arr?) && (!v.Obj? && !v.Arr? ==> w == v)
      {
        FillKeepsKind(items[i], v);
      }
    }
  }

  lemma {:induction false} NoExtraNull(s: Json)
    requires Valid(s, Null)
    ensures NoExtra(s, Null)
    decreases s
  {
    if s.Obj? && "anyOf" in s.members && s.members["anyOf"].Arr? {
      var items := s.members["anyOf"].items;
      var i :| 0 <= i < |items| && Valid(items[i], Null);
      NoExtraNull(items[i]);
    }
  }

  lemma FillObject(m: Members, members: Members)
    requires "anyOf" !in m
    ensures Fill(Obj(m), Obj(members)).Obj?
    ensures var out := Fill(Obj(m), Obj(members)).members;
      && out.Keys == members.Keys + Properties(m).Keys
      && (forall k | k in out :: out[k] ==
            if k !in members then Null
            else if k in Properties(m) then Fill(Properties(m)[k], members[k]) else members[k])
  {
  }

  lemma FillArray(m: Members, items: seq<Json>)
    requires "anyOf" !in m && "items" in m
    ensures Fill(Obj(m), Arr(items)).Arr?
    ensures var out := Fill(Obj(m), Arr(items)).items;
      |out| == |items| && forall i | 0 <= i < |items| :: out[i] == Fill(m["items"], items[i])
  {
  }

  lemma FillAnyOf(variants: seq<Json>, m: Members, v: Json) returns (i: nat)
    requires "anyOf" in m && m["anyOf"] == Arr(variants)
    requires exists i :: 0 <= i < |variants| && Takes(variants[i], v)
    ensures i < |variants| && Takes(variants[i], v) && Fill(Obj(m), v) == Fill(variants[i], v)
  {
    i :| 0 <= i < |variants| && Takes(variants[i], v) && Fill(Obj(m), v) == Fill(variants[i], v);
  }

  lemma SameInsideFill(m: Members, n: Members, v: Json)
    requires SameInside(m, n) && "anyOf" !in m
    ensures Fill(Obj(m), v) == Fill(Obj(n), v)
  {
    NoAnyOf(m, n);
    assert "properties" in m <==> "properties" in n;
    assert "items" in m <==> "items" in n;
    if v.Obj? {
      FillObject(m, v.members);
      FillObject(n, v.members);
      assert Fill(Obj(m), v).members == Fill(Obj(n), v).members;
    } else if v.Arr? && "items" in m {
      FillArray(m, v.items);
      FillArray(n, v.items);
      assert Fill(Obj(m), v).items == Fill(Obj(n), v).items;
    }
  }

  lemma SameInsideNoExtra(m: Members, n: Members, v: Json)
    requires SameInside(m, n) && "anyOf" !in m && IsObjectSchema(m) == IsObjectSchema(n)
    ensures NoExtra(Obj(m), v) <==> NoExtra(Obj(n), v)
  {
    hide IsObjectSchema;
    NoAnyOf(m, n);
    assert "properties" in m <==> "properties" in n;
    assert "items" in m <==> "items" in n;
  }

  lemma SameInsideShort(m: Members, n: Members, v: Json)
    requires SameInside(m, n) && "anyOf" !in m
    ensures Short(Obj(m), v) <==> Short(Obj(n), v)
    ensures Lacks(Obj(m), v) <==> Lacks(Obj(n), v)
  {
    hide KeptAnyOf, AdmitsNull;
    NoAnyOf(m, n);
    assert "properties" in m <==> "properties" in n;
    assert "required" in m <==> "required" in n;
    assert "items" in m <==> "items" in n;
    if v.Obj? {
      forall k | k in Properties(m) ensures MissesUnready(m, v.members, k) <==> MissesUnready(n, v.members, k) {}
    }
  }

  /** Only arrays and objects can lack anything. */
  lemma {:induction false} ShortNested(s: Json, v: Json)
    requires Short(s, v)
    ensures v.Obj? || v.Arr?
    decreases s
  {
    var m := s.members;
    if "anyOf" in m && m["anyOf"].Arr? {
      var i :| 0 <= i < |m["anyOf"].items| && Short(m["anyOf"].items[i], v);
      ShortNested(m["anyOf"].items[i], v);
    }
  }

  lemma AnyOfTakes(variants: seq<Json>, v: Json)
    ensures var s := Obj(map["anyOf" := Arr(variants)]);
      && (NoExtra(s, v) <==> exists i :: 0 <= i < |variants| && Takes(variants[i], v))
      && (Short(s, v) <==> exists i | 0 <= i < |variants| :: Takes(variants[i], v) && Short(variants[i], v))
  {
    hide Valid, Properties, MissesUnready;
    var m: Members := map["anyOf" := Arr(variants)];
    assert m["anyOf"].items == variants;
    if i :| 0 <= i < |variants| && Takes(variants[i], v) {
      assert Valid(m["anyOf"].items[i], v) && NoExtra(m["anyOf"].items[i], v);
    }
  }

  lemma NullSchemaTakes(v: Json)
    ensures var nulls := Obj(map["type" := Str("null")]);
      (Takes(nulls, v) <==> v == Null) && !Short(nulls, v)
  {
    hide Valid, Req, KeptAnyOf, AdmitsNull, MissesUnready;
    NullSchema(v);
    if v == Null { NoExtraNull(Obj(map["type" := Str("null")])); }
  }

  lemma FillWrap(p: Json, v: Json)
    requires Takes(p, v) || v == Null
    ensures Short(Wrap(p), v) ==> Short(p, v)
    ensures Takes(Wrap(p), v)
    ensures Takes(p, v) ==> Fill(Wrap(p), v) == Fill(p, v)
  {
    hide NoExtra, Valid, Fill, Short;
    var nulls := Obj(map["type" := Str("null")]);
    var variants := [p, nulls];
    NullSchemaTakes(v);
    assert Takes(variants[0], v) || Takes(variants[1], v);
    AnyOfMeans(variants, v);
    AnyOfTakes(variants, v);
    var i := FillAnyOf(variants, Wrap(p).members, v);
    FillKeepsKind(p, v);
    FillKeepsKind(nulls, v);
  }

  lemma NullableTakes(p: Json, v: Json)
    requires Fragment(p) && MakeNullable(p).Some? && !Short(p, v)
    requires Takes(p, v) || (v == Null && !KeptAnyOf(p))
    ensures var q := MakeNullable(p).value;
      Takes(q, v) && !Short(q, v) && (Takes(p, v) ==> Fill(q, v) == Fill(p, v))
  {
    hide Fragment, MakeNullable, Valid, NoExtra, Short, Lacks, Fill, SameInside, IsObjectSchema;
    NullableMeans(p, v);
    NullableInside(p);
    var q := MakeNullable(p).value;
    if q == p {
      if v == Null { NoExtraNull(q); }
    } else if q == Wrap(p) {
      FillWrap(p, v);
    } else {
      SameInsideFill(p.members, q.members, v);
      SameInsideShort(p.members, q.members, v);
      if v == Null { NoExtraNull(q); } else { SameInsideNoExtra(p.members, q.members, v); }
    }
  }

  ghost predicate PartsFilled(m: Members, out: Members, v: Json)
    requires ObjectCloses(m, out) && ItemsClose(m, out)
  {
    && (v.Obj? && IsObjectSchema(m) ==> forall k | k in Properties(m) ::
          Valid(Properties(out)[k], if k in v.members then Fill(Properties(m)[k], v.members[k]) else Null))
    && (v.Arr? && "items" in m ==> forall i | 0 <= i < |v.items| :: Valid(out["items"], Fill(m["items"], v.items[i])))
  }

  lemma FillDeclared(m: Members, out: Members, v: Json)
    requires ObjectCloses(m, out) && "anyOf" !in m && v.Obj? && Takes(Obj(m), v)
    ensures var w := Fill(Obj(m), v);
      && w.Obj?
      && ("required" in out ==> RequiredOk(out["required"], w.members))
      && ("additionalProperties" in out && out["additionalProperties"] == Bool(false) ==>
          w.members.Keys <= Properties(out).Keys)
  {
    hide Fill, RequiredNames, PropertyCloses;
    FillObject(m, v.members);
  }

  lemma FillLocal(m: Members, out: Members, v: Json)
    requires Fragment(Obj(m)) && Closes(m, out) && Takes(Obj(m), v)
    ensures LocalOk(out, Fill(Obj(m), v))
  {
    hide Fragment, Fill, TypeOk, RequiredOk, NoExtra, ObjectCloses, ItemsClose, Properties;
    FragmentKeyword(m);
    FillKeepsKind(Obj(m), v);
    if "type" in m {
      TypeOkKind(m["type"], v, Fill(Obj(m), v));
    } else if "type" in out {
      SameKind(v, m["const"], out["type"]);
    }
    if v.Obj? { FillDeclared(m, out, v); }
  }

  lemma FillObjectComplete(m: Members, out: Members, v: Json)
    requires Fragment(Obj(m)) && Closes(m, out) && Takes(Obj(m), v) && PartsFilled(m, out, v)
    ensures Valid(Obj(out), Fill(Obj(m), v))
  {
    hide Fragment, Fill, Valid, LocalOk, NoExtra;
    FillLocal(m, out, v);
    FillKeepsKind(Obj(m), v);
    if v.Obj? { FillObject(m, v.members); }
    if v.Arr? && "items" in m { FillArray(m, v.items); }
    ValidParts(out, Fill(Obj(m), v));
  }

  /** Any instance of the original schema with no undeclared members becomes valid under the
      normalised schema once its missing optional members are filled with null, unless it is short. */
  lemma {:induction false} FillSound(s: Json, v: Json)
    requires Fragment(s) && Close(s).Some? && Takes(s, v) && !Short(s, v)
    ensures Valid(Close(s).value, Fill(s, v))
    decreases Weight(s)
  {
    hide Fragment, Fill, Valid, NoExtra, Short, Weight, Close, Keyword;
    hide NullableProperty, Properties, IsObjectSchema;
    FragmentShape(s);
    if s.Bool? {
      FillBool(s, v);
    } else if "anyOf" in s.members {
      var m := s.members;
      AnyOfFragment(m);
      var variants := m["anyOf"].items;
      AnyOfTakes(variants, v);
      AnyOfCloses(m, variants, Close(s).value);
      var i := FillAnyOf(variants, m, v);
      FillSound(variants[i], v);
      AnyOfMeans(Close(s).value.members["anyOf"].items, Fill(s, v));
    } else {
      var m := s.members;
      CloseShape(s);
      var out := Close(s).value.members;
      CloseParts(m, out);
      if v.Obj? {
        forall k | k in Properties(m)
          ensures k in Properties(out)
          ensures Valid(Properties(out)[k], if k in v.members then Fill(Properties(m)[k], v.members[k]) else Null)
        {
          StripMember(m, out, k);
          var x := if k in v.members then v.members[k] else Null;
          var q := FillMember(m, v, k);
          FillSound(q, x);
        }
      }
      if v.Arr? && "items" in m {
        ItemsFragment(m);
        ItemsTaken(m, v);
        forall i | 0 <= i < |v.items| ensures Valid(out["items"], Fill(m["items"], v.items[i])) {
          FillSound(m["items"], v.items[i]);
        }
      }
      FillObjectComplete(m, out, v);
    }
  }

  lemma FillBool(s: Json, v: Json)
    requires s.Bool? && Takes(s, v)
    ensures Close(s).Some? && Valid(Close(s).value, Fill(s, v))
  {
  }

  lemma ItemsTaken(m: Members, v: Json)
    requires "anyOf" !in m && "items" in m && v.Arr? && Takes(Obj(m), v) && !Short(Obj(m), v)
    ensures forall i | 0 <= i < |v.items| :: Takes(m["items"], v.items[i]) && !Short(m["items"], v.items[i])
  {
  }

  /** Either the member is there and the property takes it, or it may be filled with null. */
  lemma FillMember(m: Members, v: Json, k: string) returns (q: Json)
    requires Fragment(Obj(m)) && "anyOf" !in m && v.Obj? && k in Properties(m)
    requires Takes(Obj(m), v) && !Short(Obj(m), v)
    requires NullableProperty(Properties(m)[k], k in Req(m)).Some?
    ensures q == NullableProperty(Properties(m)[k], k in Req(m)).value
    ensures var x := if k in v.members then v.members[k] else Null;
      Takes(q, x) && !Short(q, x) && Fill(q, x) == if k in v.members then Fill(Properties(m)[k], x) else Null
  {
    hide Fragment, Fill, MakeNullable, AdmitsNull, KeptAnyOf, RequiredNames;
    var p := Properties(m)[k];
    q := NullableProperty(p, k in Req(m)).value;
    PropertyFragment(m, k);
    FillKeepsKind(q, Null);
    if k in v.members {
      assert Takes(p, v.members[k]);
      if k !in Req(m) { NullableTakes(p, v.members[k]); }
    } else {
      MissingOptional(m, v, k);
      assert !MissesUnready(m, v.members, k);
      if Short(p, Null) { ShortNested(p, Null); }
      if KeptAnyOf(p) {
        AdmitsNullValid(p);
        NoExtraNull(p);
      }
      NullableTakes(p, Null);
    }
  }

  lemma MissingOptional(m: Members, v: Json, k: string)
    requires Fragment(Obj(m)) && "anyOf" !in m && v.Obj? && Valid(Obj(m), v) && k !in v.members
    ensures k !in Req(m)
  {
    FragmentKeyword(m);
    if "required" in m {
      var items := m["required"].items;
      assert LocalOk(m, v);
      assert forall i | 0 <= i < |items| :: items[i].s in v.members;
    }
  }

  // ---- the condition on null variants is needed ----

  lemma {:induction false} CloseNull(s: Json)
    requires Fragment(s) && Close(s).Some?
    ensures Valid(Close(s).value, Null) <==> Valid(s, Null)
    decreases Weight(s)
  {
    hide Fragment, Valid, Weight, Close, Keyword, ObjectCloses, ItemsClose, Strip;
    FragmentShape(s);
    if Valid(Close(s).value, Null) {
      StripSound(s, Null);
      StripKeepsKind(s, Null);
    }
    if s.Bool? {
      CloseLeaf(s);
    } else if "anyOf" in s.members {
      var m := s.members;
      AnyOfFragment(m);
      var variants := m["anyOf"].items;
      AnyOfCloses(m, variants, Close(s).value);
      var closed := Close(s).value.members["anyOf"].items;
      AnyOfMeans(variants, Null);
      AnyOfMeans(closed, Null);
      if i :| 0 <= i < |variants| && Valid(variants[i], Null) {
        CloseNull(variants[i]);
      }
    } else {
      CloseShape(s);
      var m, out := s.members, Close(s).value.members;
      CloseParts(m, out);
      ValidParts(m, Null);
      ValidParts(out, Null);
      if Valid(s, Null) && "type" in out && "type" !in m { SameKind(Null, m["const"], out["type"]); }
    }
  }

  /** Null is accepted where an optional property is missing exactly unless the property
      is an `anyOf` that has a null variant and yet rejects null. */
  lemma NullFillExact(p: Json)
    requires Fragment(p) && MakeNullable(p).Some? && Close(MakeNullable(p).value).Some?
    ensures Accepts(MakeNullable(p).value, Null) <==> (KeptAnyOf(p) ==> AdmitsNull(p))
  {
    hide Fragment, Valid, Close, MakeNullable, AdmitsNull;
    NullableMeans(p, Null);
    CloseNull(MakeNullable(p).value);
    AdmitsNullValid(p);
  }

  lemma MissingRejected(m: Members, out: Members, v: Json, k: string)
    requires Fragment(Obj(m)) && Closes(m, out) && v.Obj? && k in Properties(m) && MissesUnready(m, v.members, k)
    ensures !Valid(Obj(out), Fill(Obj(m), v))
  {
    hide Fragment, Valid, Close, MakeNullable, AdmitsNull, Fill, Weight;
    StripMember(m, out, k);
    PropertyFragment(m, k);
    NullFillExact(Properties(m)[k]);
    FillObject(m, v.members);
    ValidParts(out, Fill(Obj(m), v));
  }

  /** A lack inside a property is a lack inside its nullable form, or inside its first variant. */
  lemma {:induction false} LackInNullable(p: Json, x: Json)
    requires Fragment(p) && MakeNullable(p).Some? && Close(MakeNullable(p).value).Some? && Lacks(p, x)
    ensures !Valid(Close(MakeNullable(p).value).value, Fill(p, x))
    decreases Weight(MakeNullable(p).value), 1
  {
    hide Fragment, Valid, Close, MakeNullable, Fill, Weight, SameInside, IsObjectSchema, Lacks, Short;
    var q := MakeNullable(p).value;
    NullableInside(p);
    NullableFragment(p, false);
    LacksNested(p, x);
    FillKeepsKind(p, x);
    if q == p {
      NullReadyNeeded(p, x);
    } else if q == Wrap(p) {
      var variants := [p, Obj(map["type" := Str("null")])];
      if Accepts(q, Fill(p, x)) {
        AnyOfAccepts(variants, Fill(p, x));
        NullSchema(Fill(p, x));
        NullCloses();
        AnyOfCloses(q.members, variants, Close(q).value);
        NullReadyNeeded(variants[0], x);
      }
    } else {
      SameInsideShort(p.members, q.members, x);
      SameInsideFill(p.members, q.members, x);
      NullReadyNeeded(q, x);
    }
  }

  lemma LacksNested(s: Json, v: Json)
    requires Lacks(s, v)
    ensures s.Obj? && "anyOf" !in s.members && (v.Obj? || v.Arr?)
  {
  }

  /** So filling an instance that lacks such a property, however deep, produces an instance that
      the normalised schema rejects. */
  lemma {:induction false} NullReadyNeeded(s: Json, v: Json)
    requires Fragment(s) && Close(s).Some? && Lacks(s, v)
    ensures !Valid(Close(s).value, Fill(s, v))
    decreases Weight(s), 0
  {
    hide Fragment, Valid, Close, MakeNullable, AdmitsNull, Fill, Weight, IsObjectSchema;
    var m := s.members;
    CloseShape(s);
    var out := Close(s).value.members;
    CloseParts(m, out);
    ValidParts(out, Fill(s, v));
    if v.Arr? {
      var i :| 0 <= i < |v.items| && Lacks(m["items"], v.items[i]);
      ItemsFragment(m);
      FillArray(m, v.items);
      NullReadyNeeded(m["items"], v.items[i]);
    } else if k :| k in Properties(m) && MissesUnready(m, v.members, k) {
      MissingRejected(m, out, v, k);
    } else {
      var k :| k in Properties(m) && k in v.members && Lacks(Properties(m)[k], v.members[k]);
      StripMember(m, out, k);
      PropertyFragment(m, k);
      FillObject(m, v.members);
      if k in Req(m) {
        NullReadyNeeded(Properties(m)[k], v.members[k]);
      } else {
        LackInNullable(Properties(m)[k], v.members[k]);
      }
    }
  }

  lemma {:induction false} LacksShort(s: Json, v: Json)
    requires Lacks(s, v)
    ensures Short(s, v)
    decreases s
  {
    hide KeptAnyOf, AdmitsNull, Req;
    var m := s.members;
    if v.Arr? {
      var i :| 0 <= i < |v.items| && Lacks(m["items"], v.items[i]);
      LacksShort(m["items"], v.items[i]);
    } else if k :| k in Properties(m) && MissesUnready(m, v.members, k) {
    } else {
      var k :| k in Properties(m) && k in v.members && Lacks(Properties(m)[k], v.members[k]);
      LacksShort(Properties(m)[k], v.members[k]);
    }
  }

  /** Exactly when completion succeeds, for an instance that is not short only inside a variant. */
  lemma FillExact(s: Json, v: Json)
    requires Fragment(s) && Close(s).Some? && Takes(s, v)
    requires Short(s, v) ==> Lacks(s, v)
    ensures Accepts(s, Fill(s, v)) <==> !Lacks(s, v)
  {
    hide Fragment, Close, Valid, NoExtra, Fill, Lacks, Short;
    if Lacks(s, v) { NullReadyNeeded(s, v); } else { FillSound(s, v); }
  }

  lemma {:induction false} ReadyNotShort(s: Json, v: Json)
    requires NullReady(s)
    ensures !Short(s, v)
    decreases s
  {
    hide KeptAnyOf, AdmitsNull, Req, Takes;
    if s.Obj? {
      var m := s.members;
      if "anyOf" in m && m["anyOf"].Arr? {
        forall i | 0 <= i < |m["anyOf"].items| ensures !Short(m["anyOf"].items[i], v) {
          ReadyNotShort(m["anyOf"].items[i], v);
        }
      } else if v.Obj? && "properties" in m && m["properties"].Obj? {
        forall k | k in Properties(m) && k in v.members ensures !Short(Properties(m)[k], v.members[k]) {
          ReadyNotShort(Properties(m)[k], v.members[k]);
        }
      } else if v.Arr? && "items" in m {
        forall i | 0 <= i < |v.items| ensures !Short(m["items"], v.items[i]) {
          ReadyNotShort(m["items"], v.items[i]);
        }
      }
    }
  }

  /** A condition on the schema alone: under it every instance can be completed. */
  lemma FillComplete(s: Json, v: Json)
    requires Fragment(s) && Close(s).Some? && Takes(s, v) && NullReady(s)
    ensures Accepts(s, Fill(s, v))
  {
    hide Fragment, Close, Valid, NoExtra, Fill, NullReady, Short;
    ReadyNotShort(s, v);
    FillSound(s, v);
  }

  // A schema with such a property: its only variant has type null and an enum without null.

  ghost const EMPTY: Members := map["type" := Str("null"), "enum" := Arr([Str("a")])]
  ghost const ANY: Members := map["anyOf" := Arr([Obj(EMPTY)])]
  ghost const DECLARED: Members := map["p" := Obj(ANY)]
  ghost const SCHEMA: Members := map["properties" := Obj(DECLARED)]

  lemma AnyShape()
    ensures Fragment(Obj(ANY)) && KeptAnyOf(Obj(ANY)) && !AdmitsNull(Obj(ANY))
  {
    assert ANY["anyOf"].items == [Obj(EMPTY)] && [Obj(EMPTY)][0] == Obj(EMPTY);
    assert Keyword("enum", EMPTY["enum"]) && Fragment(Obj(EMPTY));
    assert Keyword("anyOf", ANY["anyOf"]);
    assert Null !in [Str("a")] && !AdmitsNull(Obj(EMPTY));
  }

  lemma SchemaGentle()
    ensures Gentle(Obj(SCHEMA))
  {
    assert Gentle(Obj(EMPTY)) && [Obj(EMPTY)][0] == Obj(EMPTY);
    assert Gentle(Obj(ANY));
    assert Gentle(Obj(DECLARED));
  }

  lemma SchemaInFragment()
    ensures Fragment(Obj(SCHEMA)) && Properties(SCHEMA)["p"] == Obj(ANY) && Req(SCHEMA) == {}
  {
    hide KeptAnyOf, AdmitsNull;
    AnyShape();
    assert Keyword("properties", SCHEMA["properties"]);
  }

  lemma SchemaShort()
    ensures var v := Obj(map[]); Takes(Obj(SCHEMA), v) && Short(Obj(SCHEMA), v) && Lacks(Obj(SCHEMA), v)
  {
    hide AdmitsNull, KeptAnyOf, Req, Fragment;
    var none: Members := map[];
    AnyShape();
    SchemaInFragment();
    assert MissesUnready(SCHEMA, none, "p");
  }

  /** Such schemas exist and are normalised without complaint. */
  lemma NullReadyFails()
    ensures exists s, v :: Fragment(s) && Close(s).Some? && Takes(s, v) && !Accepts(s, Fill(s, v))
  {
    hide Close, Fill, Gentle, Fragment, Valid, NoExtra, Lacks, Short;
    SchemaGentle();
    GentleCloses(Obj(SCHEMA));
    SchemaInFragment();
    SchemaShort();
    FillExact(Obj(SCHEMA), Obj(map[]));
  }

  /** Between the two conditions: short, but only inside a variant. */
  ghost predicate ShortInside(s: Json, v: Json) {
    Fragment(s) && Close(s).Some? && Takes(s, v) && Short(s, v) && !Lacks(s, v)
  }

  ghost function Either(variants: seq<Json>): Json {
    Obj(map["anyOf" := Arr(variants)])
  }

  lemma EitherShort(variants: seq<Json>, v: Json)
    requires forall i | 0 <= i < |variants| :: Fragment(variants[i]) && Gentle(variants[i])
    requires |variants| > 0 && Takes(variants[0], v) && Short(variants[0], v)
    ensures ShortInside(Either(variants), v)
  {
    hide Close, NoExtra, Valid, Short;
    var s := Either(variants);
    assert s.members["anyOf"].items == variants;
    assert Keyword("anyOf", s.members["anyOf"]);
    AnyOfTakes(variants, v);
    AnyOfMeans(variants, v);
    GentleCloses(s);
  }

  lemma AnyAccepts(v: Json)
    ensures var any := Obj(map[]); Fragment(any) && Gentle(any) && Close(any) == Some(any) && Valid(any, v)
  {
    var m: Members := map[];
    PlainRewrite(m);
    CloseBy(m, m, m);
  }

  /** There neither the instance nor its lack decides: another variant may accept what was filled. */
  lemma VariantsDecide()
    ensures exists s, v :: ShortInside(s, v) && Accepts(s, Fill(s, v))
    ensures exists s, v :: ShortInside(s, v) && !Accepts(s, Fill(s, v))
  {
    hide Close, Fill, Valid, NoExtra, Gentle, Fragment, Lacks, Short;
    var v := Obj(map[]);
    SchemaGentle();
    SchemaInFragment();
    SchemaShort();
    var one, two := [Obj(SCHEMA)], [Obj(SCHEMA), Obj(map[])];
    AnyAccepts(v);
    EitherShort(one, v);
    EitherShort(two, v);
    AcceptedElsewhere(two, v);
    RejectedAlone(v);
    assert ShortInside(Either(two), v) && ShortInside(Either(one), v);
  }

  lemma AcceptedElsewhere(variants: seq<Json>, v: Json)
    requires Close(Either(variants)).Some? && |variants| == 2 && variants[1] == Obj(map[])
    ensures Accepts(Either(variants), Fill(Either(variants), v))
  {
    hide Close, Fill, Valid, Gentle, Fragment;
    var s := Either(variants);
    AnyAccepts(Fill(s, v));
    AnyOfCloses(s.members, variants, Close(s).value);
    AnyOfMeans(Close(s).value.members["anyOf"].items, Fill(s, v));
  }

  lemma RejectedAlone(v: Json)
    requires var s := Either([Obj(SCHEMA)]); Close(s).Some? && Takes(s, v)
    requires Lacks(Obj(SCHEMA), v)
    ensures !Accepts(Either([Obj(SCHEMA)]), Fill(Either([Obj(SCHEMA)]), v))
  {
    hide Close, Fill, Valid, Gentle, Fragment, Lacks, NoExtra;
    var variants := [Obj(SCHEMA)];
    var s := Either(variants);
    SchemaInFragment();
    AnyOfTakes(variants, v);
    var i := FillAnyOf(variants, s.members, v);
    if Accepts(s, Fill(s, v)) {
      AnyOfAccepts(variants, Fill(s, v));
      NullReadyNeeded(Obj(SCHEMA), v);
    }
  }
}
