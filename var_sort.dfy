/**
 * The final ordering of `analyze_document`: `get_v_num` (the integer of the
 * first digit run of the id, 9999 when there is none) and Python's stable
 * `sorted` by that key, written as an insertion sort.
 */
module VarSort {
  import opened Wrappers
  import opened Text
  import opened Registry

  /** The first index at or after `i` holding a digit, or `|s|`. */
  function NextDigit(s: string, i: nat): (r: nat)
    requires i <= |s|
    ensures i <= r <= |s|
    ensures r < |s| ==> IsDigit(s[r])
    ensures forall j :: i <= j < r ==> !IsDigit(s[j])
    decreases |s| - i
  {
    if i == |s| || IsDigit(s[i]) then i else NextDigit(s, i + 1)
  }

  /** `re.search(r'\d+', s).group()`: the leftmost maximal run of digits. */
  function FirstDigitRun(s: string): Option<string>
  {
    var i := NextDigit(s, 0);
    if i == |s| then None else Some(s[i..SkipDigits(s, i)])
  }

  /** The sentinel key of an id with no digits. */
  const Unparseable: nat := 9999

  /**
   * The most digits CPython's `int` converts from a string (the default of
   * `sys.set_int_max_str_digits` since Python 3.11); a longer string raises
   * `ValueError`.
   */
  const MaxIntDigits: nat := 4300

  /**
   * `get_v_num`: `int` of the first digit run, or 9999 from the `except` when
   * there is no run or `int` refuses one longer than `MaxIntDigits`.
   */
  function VNum(id: string): nat
  {
    match FirstDigitRun(id)
    case None => Unparseable
    case Some(run) => if |run| <= MaxIntDigits then DecimalValue(run) else Unparseable
  }

  function Key(v: Variable): nat
  {
    VNum(v.id)
  }

  /**
   * For the ids the scanner produces, the key is the number after the `v`,
   * or 9999 when that number has more digits than `int` accepts.
   */
  lemma VNumOfId(letter: char, digits: string)
    requires !IsDigit(letter) && IsDigitString(digits)
    ensures VNum([letter] + digits) == if |digits| <= MaxIntDigits then DecimalValue(digits) else Unparseable
  {
    var s := [letter] + digits;
    assert s[1..] == digits;
    assert NextDigit(s, 1) == 1;
    assert NextDigit(s, 0) == 1;
    SkipDigitsOver(s, 1, |s|);
    assert s[1..|s|] == digits;
  }

  lemma VNumNoDigits(id: string)
    requires forall i :: 0 <= i < |id| ==> !IsDigit(id[i])
    ensures VNum(id) == Unparseable
  {
  }

  predicate SortedByKey(s: seq<Variable>)
  {
    forall i, j :: 0 <= i < j < |s| ==> Key(s[i]) <= Key(s[j])
  }

  /** The members of `s` whose key is `n`, in their order in `s`. */
  function WithKey(s: seq<Variable>, n: nat): seq<Variable>
    decreases |s|
  {
    if |s| == 0 then []
    else (if Key(s[0]) == n then [s[0]] else []) + WithKey(s[1..], n)
  }

  /** Insert `x` before the first member whose key is not below its own. */
  function Insert(x: Variable, s: seq<Variable>): seq<Variable>
    decreases |s|
  {
    if |s| == 0 || Key(x) <= Key(s[0]) then [x] + s
    else [s[0]] + Insert(x, s[1..])
  }

  /** `sorted(values, key=get_v_num)`. */
  function SortByVNum(s: seq<Variable>): seq<Variable>
    decreases |s|
  {
    if |s| == 0 then [] else Insert(s[0], SortByVNum(s[1..]))
  }

  lemma {:induction false} InsertPermutes(x: Variable, s: seq<Variable>)
    ensures multiset(Insert(x, s)) == multiset(s) + multiset{x}
    decreases |s|
  {
    if |s| > 0 && Key(x) > Key(s[0]) {
      InsertPermutes(x, s[1..]);
      assert s == [s[0]] + s[1..];
    }
  }

  lemma {:induction false} InsertSorted(x: Variable, s: seq<Variable>)
    requires SortedByKey(s)
    ensures SortedByKey(Insert(x, s))
    decreases |s|
  {
    if |s| > 0 && Key(x) > Key(s[0]) {
      var t := s[1..];
      assert SortedByKey(t);
      InsertSorted(x, t);
      assert forall i :: 0 <= i < |t| ==> Key(s[0]) <= Key(t[i]) by {
        assert forall i :: 0 <= i < |t| ==> t[i] == s[i + 1];
      }
      InsertLowerBound(x, t, Key(s[0]));
    }
  }

  /** Inserting a member no smaller than a bound into members no smaller than it keeps them so. */
  lemma {:induction false} InsertLowerBound(x: Variable, s: seq<Variable>, b: int)
    requires b <= Key(x) && forall i :: 0 <= i < |s| ==> b <= Key(s[i])
    ensures forall i :: 0 <= i < |Insert(x, s)| ==> b <= Key(Insert(x, s)[i])
    decreases |s|
  {
    if |s| > 0 && Key(x) > Key(s[0]) {
      var t := s[1..];
      assert forall i :: 0 <= i < |t| ==> t[i] == s[i + 1];
      InsertLowerBound(x, t, b);
      var r := Insert(x, s);
      assert forall i :: 1 <= i < |r| ==> r[i] == Insert(x, t)[i - 1];
    }
  }

  lemma {:induction false} InsertWithKey(x: Variable, s: seq<Variable>, n: nat)
    ensures WithKey(Insert(x, s), n) == (if Key(x) == n then [x] else []) + WithKey(s, n)
    decreases |s|
  {
    var r := Insert(x, s);
    if |s| > 0 && Key(x) > Key(s[0]) {
      InsertWithKey(x, s[1..], n);
      assert r[1..] == Insert(x, s[1..]);
    } else {
      assert r[1..] == s;
    }
  }

  lemma {:induction false} SortByVNumSorted(s: seq<Variable>)
    ensures SortedByKey(SortByVNum(s))
    decreases |s|
  {
    if |s| > 0 {
      SortByVNumSorted(s[1..]);
      InsertSorted(s[0], SortByVNum(s[1..]));
    }
  }

  lemma {:induction false} SortByVNumPermutes(s: seq<Variable>)
    ensures multiset(SortByVNum(s)) == multiset(s)
    decreases |s|
  {
    if |s| > 0 {
      var t := SortByVNum(s[1..]);
      assert SortByVNum(s) == Insert(s[0], t);
      SortByVNumPermutes(s[1..]);
      InsertPermutes(s[0], t);
      assert s == [s[0]] + s[1..];
      assert multiset(s) == multiset(s[1..]) + multiset{s[0]};
    }
  }

  lemma {:induction false} SortByVNumStable(s: seq<Variable>, n: nat)
    ensures WithKey(SortByVNum(s), n) == WithKey(s, n)
    decreases |s|
  {
    if |s| > 0 {
      SortByVNumStable(s[1..], n);
      InsertWithKey(s[0], SortByVNum(s[1..]), n);
    }
  }

  /**
   * The sorted list is non-decreasing by `get_v_num`, is a permutation of the
   * input, and is stable: the members with any one key keep their input order.
   */
  lemma SortByVNumSpec(s: seq<Variable>)
    ensures SortedByKey(SortByVNum(s))
    ensures multiset(SortByVNum(s)) == multiset(s)
    ensures forall n :: WithKey(SortByVNum(s), n) == WithKey(s, n)
  {
    SortByVNumSorted(s);
    SortByVNumPermutes(s);
    forall n ensures WithKey(SortByVNum(s), n) == WithKey(s, n) {
      SortByVNumStable(s, n);
    }
  }

  /** Sorting keeps exactly the input's members. */
  lemma SortByVNumMembers(s: seq<Variable>, v: Variable)
    ensures v in SortByVNum(s) <==> v in s
  {
    SortByVNumSpec(s);
    assert v in SortByVNum(s) <==> v in multiset(SortByVNum(s));
    assert v in s <==> v in multiset(s);
  }
}
