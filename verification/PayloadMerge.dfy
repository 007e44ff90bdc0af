/** The deep merge of an artifact's payload with a partial payload. */
module PayloadMerge {
  import opened Prelude

  datatype Json =
    | Null
    | Bool(value: bool)
    | Number(num: int)
    | Str(text: string)
    | Arr(items: seq<Json>)
    | Obj(fields: map<string, Json>)

  type Fields = map<string, Json>

  /** Nested objects merge, null deletes, everything else replaces. */
  function Merged(base: Fields, patch: Fields): Fields
    decreases Obj(patch)
  {
    map k | k in base.Keys + patch.Keys && !(k in patch && patch[k].Null?) ::
      if k !in patch then base[k]
      else if patch[k].Obj? && k in base && base[k].Obj? then Obj(Merged(base[k].fields, patch[k].fields))
      else patch[k]
  }

  /** As _deep_merge_payload runs: a copy of the base, changed key by key. */
  method DeepMergePayload(base: Option<Fields>, patch: Json) returns (result: Fields)
    ensures var b := if base.Some? then base.value else map[];
      result == if patch.Obj? then Merged(b, patch.fields) else b
    decreases patch
  {
    result := if base.Some? then base.value else map[];
    ghost var b := result;
    if !patch.Obj? {
      return;
    }
    var rest := patch.fields.Keys;
    while rest != {}
      invariant rest <= patch.fields.Keys
      invariant forall k :: k !in rest ==>
        (k in result <==> k in Merged(b, patch.fields))
        && (k in result ==> result[k] == Merged(b, patch.fields)[k])
      invariant forall k :: k in rest ==>
        (k in result <==> k in b) && (k in result ==> result[k] == b[k])
      decreases rest
    {
      var key :| key in rest;
      var value := patch.fields[key];
      if value.Null? {
        result := result - {key};
      } else if value.Obj? && key in result && result[key].Obj? {
        var inner := DeepMergePayload(Some(result[key].fields), value);
        result := result[key := Obj(inner)];
      } else {
        result := result[key := value];
      }
      rest := rest - {key};
    }
  }

  // ----- against RFC 7396 -----

  /** MergePatch of section 2 of RFC 7396; Null stands for an undefined target. */
  function MergePatch(target: Json, patch: Json): Json
    decreases patch
  {
    if !patch.Obj? then patch else
      var t := if target.Obj? then target.fields else map[];
      Obj(map k | k in t.Keys + patch.fields.Keys && !(k in patch.fields && patch.fields[k].Null?) ::
            if k in patch.fields then MergePatch(if k in t then t[k] else Null, patch.fields[k]) else t[k])
  }

  /** No member of the value, or of an object inside it, is null.  Arrays are not looked into. */
  predicate NullFree(v: Json) {
    v.Obj? ==> forall k :: k in v.fields ==> !v.fields[k].Null? && NullFree(v.fields[k])
  }

  /** Every object of the patch that lands where the base has no object is free of nulls. */
  predicate LandsCleanly(base: Fields, patch: Fields)
    decreases Obj(patch)
  {
    forall k :: k in patch && patch[k].Obj? ==>
      if k in base && base[k].Obj? then LandsCleanly(base[k].fields, patch[k].fields)
      else NullFree(patch[k])
  }

  /** Landing on a non-object, a patch is taken over as it is exactly when it has no nulls. */
  lemma {:induction false} MergePatchOntoNothing(target: Json, patch: Json)
    requires !target.Obj?
    ensures MergePatch(target, patch) == patch <==> NullFree(patch)
    decreases patch
  {
    if patch.Obj? {
      var m := MergePatch(target, patch).fields;
      forall k | k in patch.fields
        ensures k in m && m[k] == patch.fields[k]
                <==> !patch.fields[k].Null? && NullFree(patch.fields[k])
      {
        MergePatchOntoNothing(Null, patch.fields[k]);
      }
      if NullFree(patch) {
        assert m == patch.fields;
      }
    }
  }

  /** The merge is that of RFC 7396 exactly when the patch lands cleanly. */
  lemma {:induction false} AgreesWithMergePatch(base: Fields, patch: Fields)
    ensures Obj(Merged(base, patch)) == MergePatch(Obj(base), Obj(patch)) <==> LandsCleanly(base, patch)
    decreases Obj(patch)
  {
    var a, b := Merged(base, patch), MergePatch(Obj(base), Obj(patch)).fields;
    assert a.Keys == b.Keys;
    forall k | k in patch && !patch[k].Null?
      ensures a[k] == b[k] <==> (patch[k].Obj? ==>
        if k in base && base[k].Obj? then LandsCleanly(base[k].fields, patch[k].fields)
        else NullFree(patch[k]))
    {
      var target := if k in base then base[k] else Null;
      assert b[k] == MergePatch(target, patch[k]);
      if patch[k].Obj? && target.Obj? {
        AgreesWithMergePatch(target.fields, patch[k].fields);
        assert target == Obj(target.fields) && patch[k] == Obj(patch[k].fields);
        assert a[k] == Obj(Merged(target.fields, patch[k].fields));
      } else if patch[k].Obj? {
        MergePatchOntoNothing(target, patch[k]);
      }
    }
    assert forall k :: k in a && k !in patch ==> a[k] == b[k];
    if LandsCleanly(base, patch) {
      assert a == b;
    } else {
      var k :| k in patch && patch[k].Obj? &&
        !(if k in base && base[k].Obj? then LandsCleanly(base[k].fields, patch[k].fields)
          else NullFree(patch[k]));
      assert a[k] != b[k];
    }
  }

  /** {} merged with {"a": {"b": null}} keeps the null that RFC 7396 strips. */
  lemma NullSurvives()
    ensures var patch := map["a" := Obj(map["b" := Null])];
      Merged(map[], patch) == patch
      && MergePatch(Obj(map[]), Obj(patch)) == Obj(map["a" := Obj(map[])])
  {
    var inner := map["b" := Null];
    var patch := map["a" := Obj(inner)];
    assert MergePatch(Null, Obj(inner)) == Obj(map[]);
    assert MergePatch(Obj(map[]), Obj(patch)).fields["a"] == MergePatch(Null, Obj(inner));
    assert Merged(map[], patch)["a"] == patch["a"];
  }

  // ----- merging twice -----

  lemma {:induction false} MergedWithItself(f: Fields)
    ensures Merged(f, f) == f <==> NullFree(Obj(f))
    decreases Obj(f)
  {
    var m := Merged(f, f);
    forall k | k in f
      ensures k in m && m[k] == f[k] <==> !f[k].Null? && NullFree(f[k])
    {
      if f[k].Obj? {
        MergedWithItself(f[k].fields);
      }
    }
    if NullFree(Obj(f)) {
      assert m == f;
    } else {
      var k :| k in f && !(!f[k].Null? && NullFree(f[k]));
      assert !(k in m && m[k] == f[k]);
    }
  }

  /** Applying a patch again changes nothing exactly when it landed cleanly. */
  lemma {:induction false} MergedTwice(base: Fields, patch: Fields)
    ensures Merged(Merged(base, patch), patch) == Merged(base, patch) <==> LandsCleanly(base, patch)
    decreases Obj(patch)
  {
    var once := Merged(base, patch);
    var twice := Merged(once, patch);
    assert once.Keys == twice.Keys;
    forall k | k in patch && !patch[k].Null?
      ensures twice[k] == once[k] <==> (patch[k].Obj? ==>
        if k in base && base[k].Obj? then LandsCleanly(base[k].fields, patch[k].fields)
        else NullFree(patch[k]))
    {
      if patch[k].Obj? {
        if k in base && base[k].Obj? {
          MergedTwice(base[k].fields, patch[k].fields);
        } else {
          MergedWithItself(patch[k].fields);
        }
      }
    }
    assert forall k :: k in once && k !in patch ==> twice[k] == once[k];
    if LandsCleanly(base, patch) {
      assert twice == once;
    } else {
      var k :| k in patch && patch[k].Obj? &&
        !(if k in base && base[k].Obj? then LandsCleanly(base[k].fields, patch[k].fields)
          else NullFree(patch[k]));
      assert twice[k] != once[k];
    }
  }

  // ----- two patches, in either order -----

  /** No path ends in both patches: a key they share leads to an object in each. */
  predicate NoCommonLeaf(p: Fields, q: Fields)
    decreases Obj(p)
  {
    forall k :: k in p && k in q ==>
      p[k].Obj? && q[k].Obj? && NoCommonLeaf(p[k].fields, q[k].fields)
  }

  /** Neither patch deletes a key that the other lacks, down through the objects they share. */
  predicate NoNullAlone(p: Fields, q: Fields)
    decreases Obj(p)
  {
    && (forall k :: k in p && k !in q ==> !p[k].Null?)
    && (forall k :: k in q && k !in p ==> !q[k].Null?)
    && (forall k :: k in p && k in q ==>
          (p[k].Obj? && q[k].Obj? ==> NoNullAlone(p[k].fields, q[k].fields)))
  }

  /** Where both patches reach into a place at which the base has no object, neither deletes. */
  predicate MeetCleanly(base: Fields, p: Fields, q: Fields)
    decreases Obj(p)
  {
    forall k :: k in p && k in q && p[k].Obj? && q[k].Obj? ==>
      if k in base && base[k].Obj? then MeetCleanly(base[k].fields, p[k].fields, q[k].fields)
      else NoNullAlone(p[k].fields, q[k].fields)
  }

  /** A key that only one patch has keeps its null in one order and loses it in the other. */
  lemma LoneKey(p: Fields, q: Fields, k: string)
    requires k in p && k !in q
    ensures k in Merged(p, q) && Merged(p, q)[k] == p[k]
    ensures k in Merged(q, p) <==> !p[k].Null?
    ensures k in Merged(q, p) ==> Merged(q, p)[k] == p[k]
  {
  }

  lemma {:induction false} PatchesOntoEachOther(p: Fields, q: Fields)
    requires NoCommonLeaf(p, q)
    ensures Merged(p, q) == Merged(q, p) <==> NoNullAlone(p, q)
    decreases Obj(p)
  {
    var a, b := Merged(p, q), Merged(q, p);
    forall k | k in p && k in q
      ensures k in a && k in b && (a[k] == b[k] <==> NoNullAlone(p[k].fields, q[k].fields))
    {
      PatchesOntoEachOther(p[k].fields, q[k].fields);
    }
    forall k | k in p && k !in q {
      LoneKey(p, q, k);
    }
    forall k | k in q && k !in p {
      LoneKey(q, p, k);
    }
    if NoNullAlone(p, q) {
      assert a.Keys == b.Keys;
      assert a == b;
    }
  }

  /** The two orders agree at a key exactly when the patches meet cleanly there. */
  lemma {:induction false} OrdersAgreeAt(base: Fields, p: Fields, q: Fields, k: string)
    requires NoCommonLeaf(p, q) && k in p && k in q
    requires k in base && base[k].Obj? ==>
      (Merged(Merged(base[k].fields, p[k].fields), q[k].fields)
       == Merged(Merged(base[k].fields, q[k].fields), p[k].fields)
       <==> MeetCleanly(base[k].fields, p[k].fields, q[k].fields))
    ensures Merged(Merged(base, p), q)[k] == Merged(Merged(base, q), p)[k]
            <==> if k in base && base[k].Obj? then MeetCleanly(base[k].fields, p[k].fields, q[k].fields)
                 else NoNullAlone(p[k].fields, q[k].fields)
  {
    var bp, bq := Merged(base, p), Merged(base, q);
    if k in base && base[k].Obj? {
      assert bp[k] == Obj(Merged(base[k].fields, p[k].fields));
      assert bq[k] == Obj(Merged(base[k].fields, q[k].fields));
    } else {
      assert bp[k] == p[k] && bq[k] == q[k];
      PatchesOntoEachOther(p[k].fields, q[k].fields);
    }
  }

  lemma OrdersAgreeElsewhere(base: Fields, p: Fields, q: Fields)
    requires NoCommonLeaf(p, q)
    ensures var a, b := Merged(Merged(base, p), q), Merged(Merged(base, q), p);
      a.Keys == b.Keys && forall k :: k in a && !(k in p && k in q) ==> a[k] == b[k]
  {
  }

  /** Two patches without a common leaf commute exactly when they meet cleanly. */
  lemma {:induction false} MergesCommute(base: Fields, p: Fields, q: Fields)
    requires NoCommonLeaf(p, q)
    ensures Merged(Merged(base, p), q) == Merged(Merged(base, q), p) <==> MeetCleanly(base, p, q)
    decreases Obj(p)
  {
    var a, b := Merged(Merged(base, p), q), Merged(Merged(base, q), p);
    forall k | k in p && k in q
      ensures a[k] == b[k]
              <==> if k in base && base[k].Obj? then MeetCleanly(base[k].fields, p[k].fields, q[k].fields)
                   else NoNullAlone(p[k].fields, q[k].fields)
    {
      if k in base && base[k].Obj? {
        MergesCommute(base[k].fields, p[k].fields, q[k].fields);
      }
      OrdersAgreeAt(base, p, q, k);
    }
    OrdersAgreeElsewhere(base, p, q);
    if MeetCleanly(base, p, q) {
      assert a == b;
    } else {
      var k :| k in p && k in q && p[k].Obj? && q[k].Obj? &&
        !(if k in base && base[k].Obj? then MeetCleanly(base[k].fields, p[k].fields, q[k].fields)
          else NoNullAlone(p[k].fields, q[k].fields));
      assert a[k] != b[k];
    }
  }

  /** Patches that land cleanly meet cleanly. */
  lemma {:induction false} CleanMeetsCleanly(base: Fields, p: Fields, q: Fields)
    requires NoCommonLeaf(p, q) && LandsCleanly(base, p) && LandsCleanly(base, q)
    ensures MeetCleanly(base, p, q)
    decreases Obj(p)
  {
    forall k | k in p && k in q
      ensures if k in base && base[k].Obj? then MeetCleanly(base[k].fields, p[k].fields, q[k].fields)
              else NoNullAlone(p[k].fields, q[k].fields)
    {
      if k in base && base[k].Obj? {
        CleanMeetsCleanly(base[k].fields, p[k].fields, q[k].fields);
      } else {
        NullFreeAlone(p[k].fields, q[k].fields);
      }
    }
  }

  lemma {:induction false} NullFreeAlone(p: Fields, q: Fields)
    requires NullFree(Obj(p)) && NullFree(Obj(q))
    ensures NoNullAlone(p, q)
    decreases Obj(p)
  {
    forall k | k in p && k in q && p[k].Obj? && q[k].Obj?
      ensures NoNullAlone(p[k].fields, q[k].fields)
    {
      NullFreeAlone(p[k].fields, q[k].fields);
    }
  }
}
