/**
 * Answer-key expansion of the generator: every answer key `v<digits>` or
 * `V<digits>` adds six alias keys with the same value, written by plain
 * assignment over a copy of the caller's answers.
 */
module KeyExpansion {
  import opened Text

  /** A Python dict of answers, as its items in iteration (insertion) order. */
  type Items = seq<(string, string)>

  /** The dict invariant: no key occurs twice. */
  predicate DistinctKeys(items: Items)
  {
    forall i, j :: 0 <= i < j < |items| ==> items[i].0 != items[j].0
  }

  /** `key` is expandable and its digit suffix is `n`. */
  predicate ExpandsTo(key: string, n: string)
  {
    IsVKey(key) && key[1..] == n
  }

  /** The six keys generated for the digit suffix `n`. */
  function Aliases(n: string): set<string>
  {
    {"V" + n, "ref" + n, "Ref" + n, "REF" + n, "q" + n, "Q" + n}
  }

  /** One iteration of the expansion loop: assign the six aliases of `key` to `value`. */
  function AddAliases(m: map<string, string>, key: string, value: string): map<string, string>
  {
    if IsVKey(key) then
      var n := key[1..];
      m["V" + n := value]["ref" + n := value]["Ref" + n := value]
       ["REF" + n := value]["q" + n := value]["Q" + n := value]
    else m
  }

  /** `dict(items)`: later items overwrite earlier ones with the same key. */
  function ToMap(items: Items): map<string, string>
    decreases |items|
  {
    if |items| == 0 then map[]
    else ToMap(items[..|items| - 1])[items[|items| - 1].0 := items[|items| - 1].1]
  }

  /** The expansion loop run over `items`, starting from the map `base`. */
  function ExpandFrom(base: map<string, string>, items: Items): map<string, string>
    decreases |items|
  {
    if |items| == 0 then base
    else
      var last := items[|items| - 1];
      AddAliases(ExpandFrom(base, items[..|items| - 1]), last.0, last.1)
  }

  /** The expanded context: the copy of the answers, then the loop over the answers. */
  function Expanded(items: Items): map<string, string>
  {
    ExpandFrom(ToMap(items), items)
  }

  /** The key-expansion part of `generate_document`. */
  method ExpandKeys(userData: Items) returns (expandedContext: map<string, string>)
    ensures expandedContext == Expanded(userData)
  {
    expandedContext := ToMap(userData);
    var i := 0;
    while i < |userData|
      invariant 0 <= i <= |userData|
      invariant expandedContext == ExpandFrom(ToMap(userData), userData[..i])
    {
      var (key, value) := userData[i];
      if |key| >= 1 && (key[0] == 'v' || key[0] == 'V') && IsDigitString(key[1..]) {
        var number := key[1..];
        expandedContext := expandedContext["V" + number := value];
        expandedContext := expandedContext["ref" + number := value];
        expandedContext := expandedContext["Ref" + number := value];
        expandedContext := expandedContext["REF" + number := value];
        expandedContext := expandedContext["q" + number := value];
        expandedContext := expandedContext["Q" + number := value];
      }
      assert userData[..i + 1][..i] == userData[..i];
      i := i + 1;
    }
    assert userData[..i] == userData;
  }

  /** `k` is one of the aliases generated for some expandable answer key. */
  predicate IsGeneratedAlias(items: Items, k: string)
  {
    exists i :: 0 <= i < |items| && IsVKey(items[i].0) && k in Aliases(items[i].0[1..])
  }

  predicate HasKey(items: Items, k: string)
  {
    exists i :: 0 <= i < |items| && items[i].0 == k
  }

  /** An alias ends with its digit suffix, preceded by a letter that is not a digit and not `v`. */
  lemma AliasSplit(a: string, n: string)
    requires a in Aliases(n)
    ensures |a| > |n| && a[|a| - |n|..] == n && !IsDigit(a[|a| - |n| - 1]) && a[0] != 'v'
  {
    if a == "V" + n { assert a[1..] == n; }
    else if a == "ref" + n || a == "Ref" + n || a == "REF" + n { assert a[3..] == n; }
    else { assert a[1..] == n; }
  }

  /** An alias determines the digit suffix it was generated from. */
  lemma AliasSuffixUnique(a: string, n1: string, n2: string)
    requires IsDigitString(n1) && IsDigitString(n2)
    requires a in Aliases(n1) && a in Aliases(n2)
    ensures n1 == n2
  {
    AliasSplit(a, n1);
    AliasSplit(a, n2);
  }

  lemma {:induction false} ToMapKeys(items: Items, k: string)
    ensures k in ToMap(items) <==> HasKey(items, k)
    decreases |items|
  {
    if |items| > 0 {
      var p := items[..|items| - 1];
      ToMapKeys(p, k);
      if HasKey(p, k) {
        var i :| 0 <= i < |p| && p[i].0 == k;
        assert items[i].0 == k;
      }
      if HasKey(items, k) && items[|items| - 1].0 != k {
        var i :| 0 <= i < |items| && items[i].0 == k;
        assert p[i].0 == k;
      }
    }
  }

  /** In a dict without repeated keys, every item's key maps to that item's value. */
  lemma {:induction false} ToMapValue(items: Items, i: nat)
    requires DistinctKeys(items)
    requires i < |items|
    ensures items[i].0 in ToMap(items) && ToMap(items)[items[i].0] == items[i].1
    decreases |items|
  {
    if i < |items| - 1 {
      ToMapValue(items[..|items| - 1], i);
    }
  }

  lemma {:induction false} ExpandFromKeys(base: map<string, string>, items: Items, k: string)
    ensures k in ExpandFrom(base, items) <==> k in base || IsGeneratedAlias(items, k)
    decreases |items|
  {
    if |items| > 0 {
      var p := items[..|items| - 1];
      ExpandFromKeys(base, p, k);
      if IsGeneratedAlias(p, k) {
        var i :| 0 <= i < |p| && IsVKey(p[i].0) && k in Aliases(p[i].0[1..]);
        assert items[i] == p[i];
      }
      if IsGeneratedAlias(items, k) {
        var i :| 0 <= i < |items| && IsVKey(items[i].0) && k in Aliases(items[i].0[1..]);
        if i < |p| { assert p[i] == items[i]; }
      }
    }
  }

  /**
   * The expanded keys are exactly the caller's keys plus the aliases of the
   * expandable keys; a key that is not `v<digits>`/`V<digits>` adds nothing.
   */
  lemma ExpandedKeys(items: Items, k: string)
    ensures k in Expanded(items) <==> HasKey(items, k) || IsGeneratedAlias(items, k)
  {
    ExpandFromKeys(ToMap(items), items, k);
    ToMapKeys(items, k);
  }

  /** Among `items[..]`, index `j` is the last key that expands to suffix `n`. */
  predicate LastExpandingTo(items: Items, n: string, j: int)
  {
    && 0 <= j < |items| && ExpandsTo(items[j].0, n)
    && forall j' :: j < j' < |items| ==> !ExpandsTo(items[j'].0, n)
  }

  lemma {:induction false} ExpandFromAlias(base: map<string, string>, items: Items, n: string, a: string, i: nat)
    requires i < |items| && ExpandsTo(items[i].0, n)
    requires a in Aliases(n)
    ensures a in ExpandFrom(base, items)
    ensures exists j :: i <= j && LastExpandingTo(items, n, j) && ExpandFrom(base, items)[a] == items[j].1
    decreases |items|
  {
    var p := items[..|items| - 1];
    var last := items[|items| - 1];
    if ExpandsTo(last.0, n) {
      assert LastExpandingTo(items, n, |items| - 1);
    } else {
      assert i < |p| && p[i] == items[i];
      ExpandFromAlias(base, p, n, a, i);
      var j :| i <= j && LastExpandingTo(p, n, j) && ExpandFrom(base, p)[a] == p[j].1;
      assert items[j] == p[j];
      if IsVKey(last.0) {
        if a in Aliases(last.0[1..]) {
          AliasSuffixUnique(a, n, last.0[1..]);
        }
      }
      assert LastExpandingTo(items, n, j);
    }
  }

  /**
   * Every alias of an expandable key maps to the value of the LAST expandable
   * key with the same digit suffix: aliases overwrite whatever was there.
   */
  lemma AliasTakesLastValue(items: Items, i: nat, a: string)
    requires i < |items| && IsVKey(items[i].0)
    requires a in Aliases(items[i].0[1..])
    ensures a in Expanded(items)
    ensures exists j :: i <= j && LastExpandingTo(items, items[i].0[1..], j) && Expanded(items)[a] == items[j].1
  {
    ExpandFromAlias(ToMap(items), items, items[i].0[1..], a, i);
  }

  lemma {:induction false} ExpandFromKeeps(base: map<string, string>, items: Items, k: string)
    requires k in base && !IsGeneratedAlias(items, k)
    ensures k in ExpandFrom(base, items) && ExpandFrom(base, items)[k] == base[k]
    decreases |items|
  {
    if |items| > 0 {
      var p := items[..|items| - 1];
      assert !IsGeneratedAlias(p, k);
      ExpandFromKeeps(base, p, k);
      assert !(IsVKey(items[|items| - 1].0) && k in Aliases(items[|items| - 1].0[1..]));
    }
  }

  /** A caller key that is not a generated alias keeps the caller's value. */
  lemma CallerKeyKept(items: Items, i: nat)
    requires DistinctKeys(items)
    requires i < |items| && !IsGeneratedAlias(items, items[i].0)
    ensures items[i].0 in Expanded(items) && Expanded(items)[items[i].0] == items[i].1
  {
    ToMapValue(items, i);
    ExpandFromKeys(ToMap(items), items, items[i].0);
    ExpandFromKeeps(ToMap(items), items, items[i].0);
  }

  /** No alias begins with a lower-case `v`, so such caller keys always keep their value. */
  lemma LowercaseVKeyKept(items: Items, i: nat)
    requires DistinctKeys(items)
    requires i < |items| && |items[i].0| > 0 && items[i].0[0] == 'v'
    ensures items[i].0 in Expanded(items) && Expanded(items)[items[i].0] == items[i].1
  {
    if IsGeneratedAlias(items, items[i].0) {
      var j :| 0 <= j < |items| && IsVKey(items[j].0) && items[i].0 in Aliases(items[j].0[1..]);
      AliasSplit(items[i].0, items[j].0[1..]);
    }
    CallerKeyKept(items, i);
  }

  /** `{"v7": "Acme"}` expands to exactly seven keys, all mapped to `"Acme"`. */
  lemma SingleAnswerExample()
    ensures Expanded([("v7", "Acme")]) ==
      map["v7" := "Acme", "V7" := "Acme", "ref7" := "Acme", "Ref7" := "Acme",
          "REF7" := "Acme", "q7" := "Acme", "Q7" := "Acme"]
    ensures |Expanded([("v7", "Acme")])| == 7
  {
    var items: Items := [("v7", "Acme")];
    assert items[..0] == [];
    assert ToMap(items) == map["v7" := "Acme"];
    assert IsVKey("v7") && "v7"[1..] == "7";
    assert ExpandFrom(ToMap(items), items[..0]) == map["v7" := "Acme"];
    var m := Expanded(items);
    assert m == AddAliases(map["v7" := "Acme"], "v7", "Acme");
    assert "V" + "7" == "V7" && "ref" + "7" == "ref7" && "Ref" + "7" == "Ref7";
    assert "REF" + "7" == "REF7" && "q" + "7" == "q7" && "Q" + "7" == "Q7";
    assert m.Keys == {"v7", "V7", "ref7", "Ref7", "REF7", "q7", "Q7"};
  }

  /** A key such as `"notes"` passes through with no variants. */
  lemma PlainKeyExample()
    ensures Expanded([("notes", "x")]) == map["notes" := "x"]
  {
    var items: Items := [("notes", "x")];
    assert items[..0] == [];
    assert !IsVKey("notes");
  }
}
