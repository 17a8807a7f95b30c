/**
 The array-method questions of questions.js: `map` against `forEach` on the
 numbers `arr`, and `map`/`filter`/`reduce` pipelines over the `students`
 records. Each top-level expression is a function of the list it reads.
 */
module Questions {
  import opened Common

  // ---------------------------------------------------------------------------
  // map vs forEach
  // ---------------------------------------------------------------------------

  /** `mapResult = arr.map((value) => value + 2)`: a new array. */
  function MapResult(arr: seq<int>): (r: seq<int>)
    ensures |r| == |arr|
    ensures forall i | 0 <= i < |arr| :: r[i] == arr[i] + 2
  {
    seq(|arr|, i requires 0 <= i < |arr| => arr[i] + 2)
  }

  /** `arr.forEach((value, index) => { arr[index] = value + 3 })`: the array's
      contents afterwards. Each callback writes only the slot it was handed, so
      every later `value` is still the original. `forEach` itself returns
      `undefined`, which is not modelled. */
  method ForEachAddThree(arr: seq<int>) returns (a: seq<int>)
    ensures |a| == |arr|
    ensures forall i | 0 <= i < |arr| :: a[i] == arr[i] + 3
  {
    a := arr;
    for index := 0 to |a|
      invariant |a| == |arr|
      invariant forall i | 0 <= i < index :: a[i] == arr[i] + 3
      invariant forall i | index <= i < |arr| :: a[i] == arr[i]
    {
      var value := a[index];
      a := a[index := value + 3];
    }
  }

  /** `mapResult` is computed from the array before the `forEach` pass and keeps
      its values: afterwards it is one less than the mutated array everywhere. */
  lemma {:induction false} MapResultUnaffected(arr: seq<int>, after: seq<int>)
    requires |after| == |arr| && forall i | 0 <= i < |arr| :: after[i] == arr[i] + 3
    ensures forall i | 0 <= i < |arr| :: MapResult(arr)[i] == after[i] - 1
    ensures MapResult(arr) != after || |arr| == 0
  {
    if |arr| > 0 {
      assert MapResult(arr)[0] != after[0];
    }
  }

  lemma {:induction false} MapExample()
    ensures MapResult([2, 4, 6, 8, 10]) == [4, 6, 8, 10, 12]
  {
  }

  // ---------------------------------------------------------------------------
  // students
  // ---------------------------------------------------------------------------

  datatype Student = Student(name: string, roll: int, marks: int)

  const Students := [
    Student("Izhar", 31, 80),
    Student("Jenny", 15, 69),
    Student("Salmaan", 16, 35),
    Student("Prithviraj", 7, 55)
  ]

  /** `String.prototype.toUpperCase` on ASCII text. */
  function UpperCase(s: string): (r: string)
    ensures |r| == |s|
    ensures forall i | 0 <= i < |s| :: r[i] == ToUpper(s[i])
  {
    seq(|s|, i requires 0 <= i < |s| => ToUpper(s[i]))
  }

  /** `capitalNames`: `students.map((student) => student.name.toUpperCase())`. */
  function CapitalNames(students: seq<Student>): (r: seq<string>)
    ensures |r| == |students|
    ensures forall i | 0 <= i < |students| :: r[i] == UpperCase(students[i].name)
  {
    seq(|students|, i requires 0 <= i < |students| => UpperCase(students[i].name))
  }

  /** The `for` loop pushing `students[i].name.toUpperCase()` builds the same list as the `map` version. */
  method Names(students: seq<Student>) returns (names: seq<string>)
    ensures names == CapitalNames(students)
  {
    names := [];
    for i := 0 to |students|
      invariant |names| == i
      invariant forall k | 0 <= k < i :: names[k] == UpperCase(students[k].name)
    {
      names := names + [UpperCase(students[i].name)];
    }
  }

  predicate ScoredAbove60(stu: Student)
  {
    stu.marks > 60
  }

  predicate RollAbove15(stu: Student)
  {
    stu.roll > 15
  }

  predicate ScoredAbove60AndRollAbove15(stu: Student)
  {
    stu.marks > 60 && stu.roll > 15
  }

  /** `details`: `students.filter((stu) => stu.marks > 60)`. */
  function Details(students: seq<Student>): (r: seq<Student>)
    ensures forall s | s in r :: s in students && s.marks > 60
    ensures forall s | s in students && s.marks > 60 :: s in r
    ensures var idx := Kept(students, ByValue(ScoredAbove60), |students|);
      |r| == |idx| && forall j | 0 <= j < |idx| :: r[j] == students[idx[j]]
  {
    FilterSelects(students, ScoredAbove60);
    forall s | s in students && s.marks > 60
      ensures s in Filter(students, ScoredAbove60)
    {
      FilterCount(students, ScoredAbove60, s);
      assert s in multiset(students);
    }
    FilterMembers(students, ScoredAbove60);
    Filter(students, ScoredAbove60)
  }

  /** `moreDetails`: `students.filter((stu) => stu.marks > 60 && stu.roll > 15)`. */
  function MoreDetails(students: seq<Student>): (r: seq<Student>)
    ensures forall s | s in r :: s in students && s.marks > 60 && s.roll > 15
  {
    FilterMembers(students, ScoredAbove60AndRollAbove15);
    Filter(students, ScoredAbove60AndRollAbove15)
  }

  /** `moreDetails` is `details` narrowed to roll numbers above 15, in the same order. */
  lemma {:induction false} MoreDetailsNarrowsDetails(students: seq<Student>)
    ensures MoreDetails(students) == Filter(Details(students), RollAbove15)
    decreases |students|
  {
    if |students| > 0 {
      MoreDetailsNarrowsDetails(students[..|students| - 1]);
      var last := students[|students| - 1];
      FilterAppend(Filter(students[..|students| - 1], ScoredAbove60),
        if ScoredAbove60(last) then [last] else [], RollAbove15);
      if ScoredAbove60(last) {
        assert Filter([last], RollAbove15) == (if RollAbove15(last) then [last] else []) by {
          assert [last][..0] == [];
        }
      }
    }
  }

  function AddMarks(acc: int, curr: Student): int
  {
    acc + curr.marks
  }

  function MarksOf(students: seq<Student>): (r: seq<int>)
    ensures |r| == |students|
    ensures forall i | 0 <= i < |students| :: r[i] == students[i].marks
  {
    seq(|students|, i requires 0 <= i < |students| => students[i].marks)
  }

  /** `sumOfMarks`: `students.reduce((acc, curr) => acc + curr.marks, 0)`. */
  function SumOfMarks(students: seq<Student>): (r: int)
    ensures r == Sum(MarksOf(students))
  {
    SumOfMarksIsSum(students);
    FoldLeft(AddMarks, 0, students)
  }

  /** The reduce adds up every student's marks. */
  lemma {:induction false} SumOfMarksIsSum(students: seq<Student>)
    ensures FoldLeft(AddMarks, 0, students) == Sum(MarksOf(students))
    decreases |students|
  {
    if |students| > 0 {
      SumOfMarksIsSum(students[..|students| - 1]);
      assert MarksOf(students)[..|students| - 1] == MarksOf(students[..|students| - 1]);
    }
  }

  /** `answer`: the names of the students scoring above 60, in order. */
  function Answer(students: seq<Student>): (r: seq<string>)
    ensures |r| == |Details(students)|
    ensures forall i | 0 <= i < |r| :: r[i] == Details(students)[i].name
  {
    var d := Details(students);
    seq(|d|, i requires 0 <= i < |d| => d[i].name)
  }

  // ---------------------------------------------------------------------------
  // sum and sum1
  // ---------------------------------------------------------------------------

  /** The shared `map`: 20 extra marks below 60. */
  function Boosted(students: seq<Student>): (r: seq<int>)
    ensures |r| == |students|
    ensures forall i | 0 <= i < |students| ::
      r[i] == if students[i].marks < 60 then students[i].marks + 20 else students[i].marks
  {
    seq(|students|, i requires 0 <= i < |students| =>
      if students[i].marks < 60 then students[i].marks + 20 else students[i].marks)
  }

  function AddIfAbove60(total: int, marks: int): int
  {
    if marks > 60 then total + marks else total
  }

  predicate Above60(marks: int)
  {
    marks > 60
  }

  function Add(acc: int, curr: int): int
  {
    acc + curr
  }

  /** `sum`: `map`, then a `reduce` that adds only marks above 60. */
  function SumAbove60(students: seq<Student>): (r: int)
    ensures r == Sum(Filter(Boosted(students), Above60))
  {
    GuardedFoldIsFilteredSum(Boosted(students));
    FoldLeft(AddIfAbove60, 0, Boosted(students))
  }

  /** `sum1`: `map`, `filter` the marks above 60, then add them up. */
  function SumAbove60Filtered(students: seq<Student>): (r: int)
    ensures r == Sum(Filter(Boosted(students), Above60))
  {
    GuardedFoldIsFilteredSum(Boosted(students));
    FoldLeft(Add, 0, Filter(Boosted(students), Above60))
  }

  /** Folding with a guarded add is adding up the filtered values. */
  lemma {:induction false} GuardedFoldIsFilteredSum(s: seq<int>)
    ensures FoldLeft(AddIfAbove60, 0, s) == Sum(Filter(s, Above60))
    ensures FoldLeft(Add, 0, Filter(s, Above60)) == Sum(Filter(s, Above60))
    decreases |s|
  {
    if |s| > 0 {
      GuardedFoldIsFilteredSum(s[..|s| - 1]);
      var p := Filter(s[..|s| - 1], Above60);
      if Above60(s[|s| - 1]) {
        assert Filter(s, Above60) == p + [s[|s| - 1]];
        assert Filter(s, Above60)[..|p|] == p;
      } else {
        assert Filter(s, Above60) == p;
      }
    }
  }

  /** Both formulations compute the same total. */
  lemma {:induction false} SumFormulationsAgree(students: seq<Student>)
    ensures SumAbove60(students) == SumAbove60Filtered(students)
    ensures SumAbove60(students) == Sum(Filter(Boosted(students), Above60))
  {
    GuardedFoldIsFilteredSum(Boosted(students));
  }

  /** On the script's students: 80, 69, 35 + 20 = 55 and 55 + 20 = 75, so the total is 80 + 69 + 75. */
  lemma {:induction false} SumExample()
    ensures Boosted(Students) == [80, 69, 55, 75]
    ensures SumAbove60(Students) == 224
  {
    var b := [80, 69, 55, 75];
    assert Boosted(Students) == b;
    assert b[..3] == [80, 69, 55] && b[..3][..2] == [80, 69] && b[..2][..1] == [80] && b[..1] == [80];
    assert b[..1][..0] == [] && b[..2] == [80, 69];
    assert FoldLeft(AddIfAbove60, 0, b[..1]) == 80;
    assert FoldLeft(AddIfAbove60, 0, b[..2]) == 149;
    assert FoldLeft(AddIfAbove60, 0, b[..3]) == 149;
  }
}
