/**
 * The `variables` dict that `analyze_document` fills: records keyed by
 * normalised id, in insertion order. Re-assigning an existing key replaces
 * its record but keeps its position, as a Python dict does.
 */
module Registry {

  datatype SourceKind = TableRow | Paragraph

  /** One discovered placeholder: `{id, original_tag, context, type}`. */
  datatype Variable = Variable(id: string, originalTag: string, context: string, kind: SourceKind)

  /** An insertion-ordered dict from id to record. */
  datatype Registry = Registry(order: seq<string>, entries: map<string, Variable>)

  /** Keys are listed once each, in the order the dict iterates them, and each record sits under its own id. */
  predicate Valid(r: Registry)
  {
    && (forall i, j :: 0 <= i < j < |r.order| ==> r.order[i] != r.order[j])
    && (forall k :: k in r.entries ==> k in r.order)
    && (forall k :: k in r.order ==> k in r.entries)
    && (forall k :: k in r.entries ==> r.entries[k].id == k)
  }

  const EmptyRegistry: Registry := Registry([], map[])

  /** `variables[v.id] = v`. */
  function Assign(r: Registry, v: Variable): (r': Registry)
    requires Valid(r)
    ensures Valid(r')
  {
    Registry(if v.id in r.entries then r.order else r.order + [v.id], r.entries[v.id := v])
  }

  /** `variables.values()`, in iteration order. */
  function Values(r: Registry): (vs: seq<Variable>)
    requires Valid(r)
    ensures |vs| == |r.order|
    ensures forall i :: 0 <= i < |vs| ==> vs[i].id == r.order[i] && vs[i] == r.entries[r.order[i]]
  {
    seq(|r.order|, i requires 0 <= i < |r.order| => r.entries[r.order[i]])
  }

  /** Some occurrence carries id `k`. */
  predicate HasId(occs: seq<Variable>, k: string)
  {
    exists i :: 0 <= i < |occs| && occs[i].id == k
  }

  /** The index of the last occurrence with id `k`, or -1 when there is none. */
  function LastIdIndex(occs: seq<Variable>, k: string): (r: int)
    ensures -1 <= r < |occs|
    ensures r >= 0 ==> occs[r].id == k
    ensures forall j :: r < j < |occs| ==> occs[j].id != k
    decreases |occs|
  {
    if |occs| == 0 then -1
    else if occs[|occs| - 1].id == k then |occs| - 1
    else LastIdIndex(occs[..|occs| - 1], k)
  }

  /** The index of the first occurrence with id `k`, or -1 when there is none. */
  function FirstIdIndex(occs: seq<Variable>, k: string): (r: int)
    ensures -1 <= r < |occs|
    ensures r >= 0 ==> occs[r].id == k
    ensures forall j :: 0 <= j < |occs| && (r < 0 || j < r) ==> occs[j].id != k
    decreases |occs|
  {
    if |occs| == 0 then -1
    else
      var f := FirstIdIndex(occs[..|occs| - 1], k);
      if f >= 0 then f
      else if occs[|occs| - 1].id == k then |occs| - 1
      else -1
  }

  /** The ids of a list of occurrences, in order. */
  function Ids(occs: seq<Variable>): (ids: seq<string>)
    ensures |ids| == |occs| && forall i :: 0 <= i < |occs| ==> ids[i] == occs[i].id
  {
    seq(|occs|, i requires 0 <= i < |occs| => occs[i].id)
  }

  /** The first occurrence in a concatenation is the first one in its first half, or else in its second. */
  lemma FirstIdIndexAppend(a: seq<Variable>, b: seq<Variable>, k: string)
    ensures FirstIdIndex(a + b, k)
         == if FirstIdIndex(a, k) >= 0 then FirstIdIndex(a, k)
            else if FirstIdIndex(b, k) >= 0 then |a| + FirstIdIndex(b, k)
            else -1
  {
    var r := FirstIdIndex(a + b, k);
    var fa, fb := FirstIdIndex(a, k), FirstIdIndex(b, k);
    if fa >= 0 {
      assert (a + b)[fa] == a[fa];
      forall j | 0 <= j < fa ensures (a + b)[j].id != k {
        assert (a + b)[j] == a[j];
      }
    } else if fb >= 0 {
      assert (a + b)[|a| + fb] == b[fb];
      forall j | 0 <= j < |a| + fb ensures (a + b)[j].id != k {
        if j < |a| { assert (a + b)[j] == a[j]; } else { assert (a + b)[j] == b[j - |a|]; }
      }
    } else {
      forall j | 0 <= j < |a + b| ensures (a + b)[j].id != k {
        if j < |a| { assert (a + b)[j] == a[j]; } else { assert (a + b)[j] == b[j - |a|]; }
      }
    }
  }

  /** The first record with id `k` in `a + b` is the first in `a`, or else the first in `b`. */
  lemma FirstRecordAppend(a: seq<Variable>, b: seq<Variable>, k: string)
    requires HasId(a, k) || HasId(b, k)
    ensures FirstIdIndex(a + b, k) >= 0
    ensures (a + b)[FirstIdIndex(a + b, k)]
         == if HasId(a, k) then a[FirstIdIndex(a, k)] else b[FirstIdIndex(b, k)]
  {
    FirstIdIndexAppend(a, b, k);
    FirstIdIndexFound(a, k);
    FirstIdIndexFound(b, k);
    if HasId(a, k) {
      assert (a + b)[FirstIdIndex(a, k)] == a[FirstIdIndex(a, k)];
    } else {
      assert (a + b)[|a| + FirstIdIndex(b, k)] == b[FirstIdIndex(b, k)];
    }
  }

  /** `FirstIdIndex` finds an occurrence exactly when there is one. */
  lemma FirstIdIndexFound(occs: seq<Variable>, k: string)
    ensures FirstIdIndex(occs, k) >= 0 <==> HasId(occs, k)
  {
  }

  /** The insertion order after meeting `ids`: each id not yet present is appended. */
  function ExtendOrder(order: seq<string>, ids: seq<string>): seq<string>
    decreases |ids|
  {
    if |ids| == 0 then order
    else
      var o := ExtendOrder(order, ids[..|ids| - 1]);
      if ids[|ids| - 1] in o then o else o + [ids[|ids| - 1]]
  }

  /** The table pass: each occurrence is assigned, overwriting any earlier record. */
  function AssignAll(r: Registry, occs: seq<Variable>): (r': Registry)
    requires Valid(r)
    ensures Valid(r')
    decreases |occs|
  {
    if |occs| == 0 then r
    else Assign(AssignAll(r, occs[..|occs| - 1]), occs[|occs| - 1])
  }

  /** The paragraph pass: an occurrence is assigned only when its id is absent. */
  function AssignAbsent(r: Registry, occs: seq<Variable>): (r': Registry)
    requires Valid(r)
    ensures Valid(r')
    decreases |occs|
  {
    if |occs| == 0 then r
    else
      var r0 := AssignAbsent(r, occs[..|occs| - 1]);
      var v := occs[|occs| - 1];
      if v.id in r0.entries then r0 else Assign(r0, v)
  }

  lemma HasIdPrefix(occs: seq<Variable>, k: string)
    requires |occs| > 0
    ensures HasId(occs, k) <==> HasId(occs[..|occs| - 1], k) || occs[|occs| - 1].id == k
  {
    var p := occs[..|occs| - 1];
    if HasId(p, k) {
      var i :| 0 <= i < |p| && p[i].id == k;
      assert occs[i].id == k;
    }
  }

  /** The table pass keeps the keys it had and adds exactly the ids it meets. */
  lemma {:induction false} AssignAllKeys(r: Registry, occs: seq<Variable>, k: string)
    requires Valid(r)
    ensures k in AssignAll(r, occs).entries <==> k in r.entries || HasId(occs, k)
    decreases |occs|
  {
    if |occs| > 0 {
      AssignAllKeys(r, occs[..|occs| - 1], k);
      HasIdPrefix(occs, k);
    }
  }

  /** After the table pass, an id that occurred holds its LAST occurrence. */
  lemma {:induction false} AssignAllLast(r: Registry, occs: seq<Variable>, k: string)
    requires Valid(r) && HasId(occs, k)
    ensures LastIdIndex(occs, k) >= 0 && k in AssignAll(r, occs).entries
    ensures AssignAll(r, occs).entries[k] == occs[LastIdIndex(occs, k)]
    decreases |occs|
  {
    var n := |occs| - 1;
    HasIdPrefix(occs, k);
    if occs[n].id != k {
      AssignAllLast(r, occs[..n], k);
    }
  }

  /** The paragraph pass keeps the keys it had and adds exactly the ids it meets. */
  lemma {:induction false} AssignAbsentKeys(r: Registry, occs: seq<Variable>, k: string)
    requires Valid(r)
    ensures k in AssignAbsent(r, occs).entries <==> k in r.entries || HasId(occs, k)
    decreases |occs|
  {
    if |occs| > 0 {
      AssignAbsentKeys(r, occs[..|occs| - 1], k);
      HasIdPrefix(occs, k);
    }
  }

  /** The paragraph pass never replaces a record that was already present. */
  lemma {:induction false} AssignAbsentKeeps(r: Registry, occs: seq<Variable>, k: string)
    requires Valid(r) && k in r.entries
    ensures k in AssignAbsent(r, occs).entries && AssignAbsent(r, occs).entries[k] == r.entries[k]
    decreases |occs|
  {
    if |occs| > 0 {
      AssignAbsentKeeps(r, occs[..|occs| - 1], k);
    }
  }

  /** An id absent before the paragraph pass ends up holding its FIRST occurrence. */
  lemma {:induction false} AssignAbsentFirst(r: Registry, occs: seq<Variable>, k: string)
    requires Valid(r) && k !in r.entries && HasId(occs, k)
    ensures FirstIdIndex(occs, k) >= 0 && k in AssignAbsent(r, occs).entries
    ensures AssignAbsent(r, occs).entries[k] == occs[FirstIdIndex(occs, k)]
    decreases |occs|
  {
    var n := |occs| - 1;
    var p := occs[..n];
    HasIdPrefix(occs, k);
    if HasId(p, k) {
      AssignAbsentFirst(r, p, k);
    } else {
      AssignAbsentKeys(r, p, k);
      assert FirstIdIndex(p, k) < 0;
    }
  }

  /** Both passes extend the insertion order by the ids not yet present, in order of first sight. */
  lemma {:induction false} AssignAllOrder(r: Registry, occs: seq<Variable>)
    requires Valid(r)
    ensures AssignAll(r, occs).order == ExtendOrder(r.order, Ids(occs))
    decreases |occs|
  {
    if |occs| > 0 {
      var p := occs[..|occs| - 1];
      AssignAllOrder(r, p);
      assert Ids(occs)[..|occs| - 1] == Ids(p);
    }
  }

  lemma {:induction false} AssignAbsentOrder(r: Registry, occs: seq<Variable>)
    requires Valid(r)
    ensures AssignAbsent(r, occs).order == ExtendOrder(r.order, Ids(occs))
    decreases |occs|
  {
    if |occs| > 0 {
      var p := occs[..|occs| - 1];
      AssignAbsentOrder(r, p);
      assert Ids(occs)[..|occs| - 1] == Ids(p);
    }
  }

  lemma {:induction false} ExtendOrderAppend(order: seq<string>, a: seq<string>, b: seq<string>)
    ensures ExtendOrder(order, a + b) == ExtendOrder(ExtendOrder(order, a), b)
    decreases |b|
  {
    if |b| == 0 {
      assert a + b == a;
    } else {
      assert (a + b)[..|a + b| - 1] == a + b[..|b| - 1];
      ExtendOrderAppend(order, a, b[..|b| - 1]);
    }
  }

  /** The table pass over two lists in a row is the pass over their concatenation. */
  lemma {:induction false} AssignAllAppend(r: Registry, a: seq<Variable>, b: seq<Variable>)
    requires Valid(r)
    ensures AssignAll(r, a + b) == AssignAll(AssignAll(r, a), b)
    decreases |b|
  {
    if |b| == 0 {
      assert a + b == a;
    } else {
      assert (a + b)[..|a + b| - 1] == a + b[..|b| - 1];
      AssignAllAppend(r, a, b[..|b| - 1]);
    }
  }

  /** The paragraph pass over two lists in a row is the pass over their concatenation. */
  lemma {:induction false} AssignAbsentAppend(r: Registry, a: seq<Variable>, b: seq<Variable>)
    requires Valid(r)
    ensures AssignAbsent(r, a + b) == AssignAbsent(AssignAbsent(r, a), b)
    decreases |b|
  {
    if |b| == 0 {
      assert a + b == a;
    } else {
      assert (a + b)[..|a + b| - 1] == a + b[..|b| - 1];
      AssignAbsentAppend(r, a, b[..|b| - 1]);
    }
  }

  /** The values of a well-formed dict are its records, one per key. */
  lemma ValuesMembers(r: Registry, v: Variable)
    requires Valid(r)
    ensures v in Values(r) <==> v.id in r.entries && r.entries[v.id] == v
  {
    if v.id in r.entries && r.entries[v.id] == v {
      var i :| 0 <= i < |r.order| && r.order[i] == v.id;
      assert Values(r)[i] == v;
    }
  }

  lemma IdsAppend(a: seq<Variable>, b: seq<Variable>)
    ensures Ids(a + b) == Ids(a) + Ids(b)
  {
  }

  /** The values are listed in the dict's insertion order. */
  lemma ValuesIds(r: Registry)
    requires Valid(r)
    ensures Ids(Values(r)) == r.order
  {
  }

  /** No two values of a well-formed dict share an id. */
  lemma ValuesDistinct(r: Registry)
    requires Valid(r)
    ensures forall i, j :: 0 <= i < j < |Values(r)| ==> Values(r)[i].id != Values(r)[j].id
  {
  }
}
