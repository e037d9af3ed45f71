/**
 * Synthetic local-variable names for generated code. A node keeps its name
 * once it has one; a fresh name uses a per-type-name counter threaded
 * through the writer (`nameCount`).
 */
module Naming {
  import opened Wrappers
  import opened Decimal

  /** The result of naming a node: its name and the updated counters. */
  datatype Named = Named(name: string, counts: map<string, nat>)

  /** One more than the count stored for `typeName`, or 1 when none is stored. */
  function NextCount(counts: map<string, nat>, typeName: string): (n: nat)
    ensures n >= 1
    ensures typeName in counts ==> n == counts[typeName] + 1
  {
    (if typeName in counts then counts[typeName] else 0) + 1
  }

  /*** The name format as the source writes it ***/

  /** `"_" + typeName + count`: type name and counter are run together. */
  function AsWrittenName(typeName: string, count: nat): (r: string)
  {
    "_" + typeName + NatToString(count)
  }

  /** Memoised naming with the source's format. */
  function GetNameAsWritten(memo: Option<string>, typeName: string, counts: map<string, nat>): (r: Named)
    ensures memo.Some? ==> r == Named(memo.value, counts)
    ensures memo.None? ==>
              && r.counts == counts[typeName := NextCount(counts, typeName)]
              && r.name == AsWrittenName(typeName, r.counts[typeName])
  {
    match memo
    case Some(name) => Named(name, counts)
    case None =>
      var count := NextCount(counts, typeName);
      Named(AsWrittenName(typeName, count), counts[typeName := count])
  }

  /** Within one type name, the source's format gives distinct counts distinct names. */
  lemma AsWrittenDistinctPerType(typeName: string, k1: nat, k2: nat)
    requires k1 != k2
    ensures AsWrittenName(typeName, k1) != AsWrittenName(typeName, k2)
  {
    if AsWrittenName(typeName, k1) == AsWrittenName(typeName, k2) {
      var prefix := "_" + typeName;
      assert NatToString(k1) == AsWrittenName(typeName, k1)[|prefix|..];
      assert NatToString(k2) == AsWrittenName(typeName, k2)[|prefix|..];
      NatToStringInjective(k1, k2);
    }
  }

  /** A name the source's format has already handed out under `counts`. */
  ghost predicate IssuedAsWritten(counts: map<string, nat>, name: string)
  {
    exists t, k :: t in counts && 1 <= k <= counts[t] && name == AsWrittenName(t, k)
  }

  /**
   * Across type names the source's format collides: after eleven nodes of type
   * `A`, the first node of type `A1` is named `_A11`, the name already given to
   * the eleventh `A`.
   */
  lemma AsWrittenNamesCollide()
    ensures var r := GetNameAsWritten(None, "A1", map["A" := 11]);
            r.name == AsWrittenName("A", 11) && IssuedAsWritten(map["A" := 11], r.name)
  {
    assert NatToString(1) == "1";
    assert NatToString(11) == "11";
    assert "_" + "A1" + "1" == "_" + "A" + "11";
    var counts := map["A" := 11];
    assert "A" in counts && 1 <= 11 <= counts["A"];
  }

  /*** The corrected name format ***/

  /** `"_" + typeName + "_" + count`: the last underscore separates the counter. */
  function UniqueName(typeName: string, count: nat): (r: string)
  {
    "_" + typeName + "_" + NatToString(count)
  }

  /** In a corrected name the separator after the type name is the last underscore. */
  lemma SeparatorIsLast(typeName: string, count: nat)
    ensures var s := UniqueName(typeName, count);
            && |s| == |typeName| + 2 + |NatToString(count)|
            && s[|typeName| + 1] == '_'
            && forall i :: |typeName| + 1 < i < |s| ==> s[i] != '_'
  {
    var s := UniqueName(typeName, count);
    var d := NatToString(count);
    assert s == ("_" + typeName + "_") + d;
    forall i | |typeName| + 1 < i < |s| ensures s[i] != '_' {
      assert s[i] == d[i - |typeName| - 2];
    }
  }

  /** The corrected format is injective: a name determines its type name and count. */
  lemma UniqueNameInjective(t1: string, k1: nat, t2: string, k2: nat)
    requires UniqueName(t1, k1) == UniqueName(t2, k2)
    ensures t1 == t2 && k1 == k2
  {
    var s := UniqueName(t1, k1);
    SeparatorIsLast(t1, k1);
    SeparatorIsLast(t2, k2);
    assert |t1| == |t2|;
    assert s == ("_" + t1 + "_") + NatToString(k1);
    assert s == ("_" + t2 + "_") + NatToString(k2);
    assert t1 == s[1..|t1| + 1] == t2;
    assert NatToString(k1) == s[|t1| + 2..] == NatToString(k2);
    NatToStringInjective(k1, k2);
  }

  /** Memoised naming with the corrected format. */
  function GetName(memo: Option<string>, typeName: string, counts: map<string, nat>): (r: Named)
    ensures memo.Some? ==> r == Named(memo.value, counts)
    ensures memo.None? ==>
              && r.counts == counts[typeName := NextCount(counts, typeName)]
              && r.name == UniqueName(typeName, r.counts[typeName])
  {
    match memo
    case Some(name) => Named(name, counts)
    case None =>
      var count := NextCount(counts, typeName);
      Named(UniqueName(typeName, count), counts[typeName := count])
  }

  /** A name the corrected format has already handed out under `counts`. */
  ghost predicate Issued(counts: map<string, nat>, name: string)
  {
    exists t, k :: t in counts && 1 <= k <= counts[t] && name == UniqueName(t, k)
  }

  /**
   * A fresh name was never handed out before, and afterwards the issued names
   * are the earlier ones plus the fresh one; a memoised name changes nothing.
   */
  lemma GetNameIsFresh(memo: Option<string>, typeName: string, counts: map<string, nat>)
    ensures var r := GetName(memo, typeName, counts);
            memo.None? ==> !Issued(counts, r.name)
    ensures var r := GetName(memo, typeName, counts);
            forall name :: Issued(r.counts, name) <==> Issued(counts, name) || (memo.None? && name == r.name)
  {
    var r := GetName(memo, typeName, counts);
    if memo.None? {
      var n := NextCount(counts, typeName);
      if Issued(counts, r.name) {
        var t, k :| t in counts && 1 <= k <= counts[t] && r.name == UniqueName(t, k);
        UniqueNameInjective(t, k, typeName, n);
        assert false;
      }
      forall name | Issued(r.counts, name)
        ensures Issued(counts, name) || name == r.name
      {
        var t, k :| t in r.counts && 1 <= k <= r.counts[t] && name == UniqueName(t, k);
        if t != typeName || k != n {
          assert t in counts && 1 <= k <= counts[t];
        }
      }
      forall name | Issued(counts, name) || name == r.name
        ensures Issued(r.counts, name)
      {
        if name == r.name {
          assert typeName in r.counts && 1 <= n <= r.counts[typeName];
        } else {
          var t, k :| t in counts && 1 <= k <= counts[t] && name == UniqueName(t, k);
          assert t in r.counts && 1 <= k <= r.counts[t];
        }
      }
    }
  }
}
