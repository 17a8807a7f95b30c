/**
 Questions 1-6 of practise_problems/hof.practise.js: one-line `map`, `filter`
 and `reduce` pipelines over arrays of integers and over student records.
 `reduce` with an initial value is the left fold `FoldLeft`; `reduce` on an
 empty array returns its initial value.
 */
module HofPractise {
  import opened Common

  /** Q1 `doubleNumbers`: `arr.map((a) => a * 2)`. */
  function DoubleNumbers(arr: seq<int>): (r: seq<int>)
    ensures |r| == |arr|
    ensures forall i | 0 <= i < |arr| :: r[i] == 2 * arr[i]
  {
    seq(|arr|, i requires 0 <= i < |arr| => arr[i] * 2)
  }

  /** Doubling every element doubles the total, and halving undoes it. */
  lemma {:induction false} DoubleNumbersSum(arr: seq<int>)
    ensures Sum(DoubleNumbers(arr)) == 2 * Sum(arr)
    ensures seq(|arr|, i requires 0 <= i < |arr| => DoubleNumbers(arr)[i] / 2) == arr
    decreases |arr|
  {
    if |arr| > 0 {
      var p := arr[..|arr| - 1];
      DoubleNumbersSum(p);
      assert DoubleNumbers(arr)[..|arr| - 1] == DoubleNumbers(p);
    }
  }

  /** JavaScript's `a % 2 === 0`: the remainder truncates toward zero, but it is
      zero exactly when `a` is even, as with Dafny's `%`. */
  predicate IsEven(a: int)
  {
    a % 2 == 0
  }

  predicate IsOdd(a: int)
  {
    !IsEven(a)
  }

  /** Q2 `filterEven`: the even elements, each with its multiplicity, in input order. */
  function FilterEven(arr: seq<int>): (r: seq<int>)
    ensures forall i | 0 <= i < |r| :: IsEven(r[i])
    ensures forall x :: Count(r, x) == if IsEven(x) then Count(arr, x) else 0
    ensures var idx := Kept(arr, ByValue(IsEven), |arr|);
      |r| == |idx| && forall j | 0 <= j < |idx| :: r[j] == arr[idx[j]]
  {
    FilterSelects(arr, IsEven);
    forall x
      ensures Count(Filter(arr, IsEven), x) == if IsEven(x) then Count(arr, x) else 0
    {
      FilterCount(arr, IsEven, x);
    }
    Filter(arr, IsEven)
  }

  /** The even and the odd elements together are the input. */
  lemma {:induction false} FilterEvenPartition(arr: seq<int>)
    ensures multiset(FilterEven(arr)) + multiset(Filter(arr, IsOdd)) == multiset(arr)
  {
    PartitionMultiset(arr, IsEven, IsOdd);
  }

  function Add(acc: int, curr: int): int
  {
    acc + curr
  }

  /** Q3 `sumArray`: `arr.reduce((acc, curr) => acc + curr, 0)`; 0 for the empty array. */
  function SumArray(arr: seq<int>): (r: int)
    ensures |arr| == 0 ==> r == 0
    ensures r == Sum(arr)
  {
    SumArrayIsSum(arr);
    FoldLeft(Add, 0, arr)
  }

  /** The fold computes the sum of the elements. */
  lemma {:induction false} SumArrayIsSum(arr: seq<int>)
    ensures FoldLeft(Add, 0, arr) == Sum(arr)
    decreases |arr|
  {
    if |arr| > 0 {
      SumArrayIsSum(arr[..|arr| - 1]);
    }
  }

  function Max(a: int, b: int): int
  {
    if a >= b then a else b
  }

  /** Q4 `findMax`: `arr.reduce((max, curr) => Math.max(max, curr), arr[0])`;
      on the empty array `arr[0]` is `undefined` and so is the result. */
  function FindMax(arr: seq<int>): (r: Option<int>)
    ensures r.None? <==> |arr| == 0
    ensures r.Some? ==> r.value in arr && forall i | 0 <= i < |arr| :: arr[i] <= r.value
  {
    if |arr| == 0 then None
    else
      FoldMaxBounds(arr[0], arr);
      Some(FoldLeft(Max, arr[0], arr))
  }

  /** The running maximum is the seed or an element, and bounds the seed and every element. */
  lemma {:induction false} FoldMaxBounds(seed: int, s: seq<int>)
    ensures var m := FoldLeft(Max, seed, s);
      (m == seed || m in s) && seed <= m && forall i | 0 <= i < |s| :: s[i] <= m
    decreases |s|
  {
    if |s| > 0 {
      FoldMaxBounds(seed, s[..|s| - 1]);
    }
  }

  /** Q5 `countFrequencyReduce`: the object filled by `reduce` holds each element's count. */
  function CountFrequencyReduce(arr: seq<int>): (freq: map<int, nat>)
    ensures forall x :: x in freq <==> x in arr
    ensures forall x | x in freq :: freq[x] == Count(arr, x)
  {
    FoldBumpIsFrequency(arr);
    FoldLeft(Bump, map[], arr)
  }

  // ---------------------------------------------------------------------------
  // Q6: processMarks
  // ---------------------------------------------------------------------------

  datatype Student = Student(name: string, marks: int)

  /** The object `processMarks` returns. */
  datatype Report = Report(totalMarks: int, qualifiedStudents: seq<Student>)

  /** `{ ...stu, marks: stu.marks < 50 ? stu.marks + 10 : stu.marks }`: a new record. */
  function Boost(stu: Student): (r: Student)
    ensures r.name == stu.name
    ensures stu.marks < 50 ==> r.marks == stu.marks + 10
    ensures stu.marks >= 50 ==> r.marks == stu.marks
  {
    stu.(marks := if stu.marks < 50 then stu.marks + 10 else stu.marks)
  }

  predicate Qualifies(stu: Student)
  {
    stu.marks > 50
  }

  function Marks(students: seq<Student>): seq<int>
  {
    seq(|students|, i requires 0 <= i < |students| => students[i].marks)
  }

  function Boosted(students: seq<Student>): (r: seq<Student>)
    ensures |r| == |students|
    ensures forall i | 0 <= i < |students| :: r[i] == Boost(students[i])
  {
    seq(|students|, i requires 0 <= i < |students| => Boost(students[i]))
  }

  /** Q6 `processMarks` as written: raise marks below 50 by 10, keep marks above 50, and total them. */
  function ProcessMarks(students: seq<Student>): (r: Report)
    ensures forall i | 0 <= i < |r.qualifiedStudents| :: r.qualifiedStudents[i].marks > 50
    ensures r.totalMarks == Sum(Marks(r.qualifiedStudents))
  {
    var qualified := Filter(Boosted(students), Qualifies);
    FilterMembers(Boosted(students), Qualifies);
    assert forall i | 0 <= i < |qualified| :: qualified[i] in qualified;
    SumMarksFold(qualified);
    Report(FoldLeft(AddMarks, 0, qualified), qualified)
  }

  function AddMarks(sum: int, stu: Student): int
  {
    sum + stu.marks
  }

  lemma {:induction false} SumMarksFold(s: seq<Student>)
    ensures FoldLeft(AddMarks, 0, s) == Sum(Marks(s))
    decreases |s|
  {
    if |s| > 0 {
      SumMarksFold(s[..|s| - 1]);
      assert Marks(s)[..|s| - 1] == Marks(s[..|s| - 1]);
    }
  }

  /** The qualified students are, in input order, exactly the boosted records
      with marks above 50: a student qualifies iff its raised mark exceeds 50,
      and names are kept. */
  lemma {:induction false} ProcessMarksSelection(students: seq<Student>)
    ensures ProcessMarks(students).qualifiedStudents == Filter(Boosted(students), Qualifies)
    ensures forall s | s in ProcessMarks(students).qualifiedStudents ::
      exists i | 0 <= i < |students| :: s == Boost(students[i]) && s.name == students[i].name
    ensures forall i | 0 <= i < |students| ::
      Boost(students[i]) in ProcessMarks(students).qualifiedStudents <==> Qualifies(Boost(students[i]))
  {
    var b := Boosted(students);
    FilterMembers(b, Qualifies);
    forall s | s in Filter(b, Qualifies)
      ensures exists i | 0 <= i < |students| :: s == Boost(students[i]) && s.name == students[i].name
    {
      var i :| 0 <= i < |b| && b[i] == s;
      assert s == Boost(students[i]);
    }
    forall i | 0 <= i < |students|
      ensures Boost(students[i]) in Filter(b, Qualifies) <==> Qualifies(Boost(students[i]))
    {
      FilterCount(b, Qualifies, b[i]);
      assert b[i] in multiset(b);
    }
  }

  /** The script's four students. */
  const ExampleStudents := [Student("A", 45), Student("B", 60), Student("C", 30), Student("D", 80)]

  lemma {:induction false} ExampleBoosted()
    ensures Boosted(ExampleStudents) ==
      [Student("A", 55), Student("B", 60), Student("C", 40), Student("D", 80)]
  {
  }

  /** On the script's students the code keeps A (45 raised to 55), B and D, totalling 195. */
  lemma {:induction false} ProcessMarksExample()
    ensures ProcessMarks(ExampleStudents) ==
      Report(195, [Student("A", 55), Student("B", 60), Student("D", 80)])
  {
    var q := [Student("A", 55), Student("B", 60), Student("D", 80)];
    ExampleQualified();
    var b2 := [Student("A", 55), Student("B", 60)];
    var b1 := [Student("A", 55)];
    assert q[..2] == b2 && b2[..1] == b1 && b1[..0] == [];
    assert FoldLeft(AddMarks, 0, b1) == 55;
    assert FoldLeft(AddMarks, 0, b2) == 115;
  }

  /** The filter step of the example: C (40 after the boost) is dropped. */
  lemma {:induction false} ExampleQualified()
    ensures Filter(Boosted(ExampleStudents), Qualifies) ==
      [Student("A", 55), Student("B", 60), Student("D", 80)]
  {
    ExampleBoosted();
    var b := Boosted(ExampleStudents);
    var b3 := [Student("A", 55), Student("B", 60), Student("C", 40)];
    var b2 := [Student("A", 55), Student("B", 60)];
    var b1 := [Student("A", 55)];
    assert b[..3] == b3 && b3[..2] == b2 && b2[..1] == b1 && b1[..0] == [];
    assert Filter(b1, Qualifies) == b1;
    assert Filter(b2, Qualifies) == b2;
    assert Filter(b3, Qualifies) == b2;
  }

  /** With the comment's "> 60" only D would remain, and the total would be the documented 80. */
  lemma {:induction false} ProcessMarksAsDocumentedExample()
    ensures ProcessMarksAsDocumented(ExampleStudents) == Report(80, [Student("D", 80)])
  {
    ExampleBoosted();
    var b := Boosted(ExampleStudents);
    var b3 := [Student("A", 55), Student("B", 60), Student("C", 40)];
    var b2 := [Student("A", 55), Student("B", 60)];
    var b1 := [Student("A", 55)];
    assert b[..3] == b3 && b3[..2] == b2 && b2[..1] == b1 && b1[..0] == [];
    assert Filter(b1, QualifiesAsDocumented) == [];
    assert Filter(b2, QualifiesAsDocumented) == [];
    assert Filter(b3, QualifiesAsDocumented) == [];
    var q := [Student("D", 80)];
    assert Filter(b, QualifiesAsDocumented) == q;
    assert q[..0] == [];
  }

  predicate QualifiesAsDocumented(stu: Student)
  {
    stu.marks > 60
  }

  /** The pipeline the comment describes: the same boost, then keep marks above 60. */
  function ProcessMarksAsDocumented(students: seq<Student>): (r: Report)
    ensures forall i | 0 <= i < |r.qualifiedStudents| :: r.qualifiedStudents[i].marks > 60
    ensures r.totalMarks == Sum(Marks(r.qualifiedStudents))
  {
    var qualified := Filter(Boosted(students), QualifiesAsDocumented);
    FilterMembers(Boosted(students), QualifiesAsDocumented);
    assert forall i | 0 <= i < |qualified| :: qualified[i] in qualified;
    SumMarksFold(qualified);
    Report(FoldLeft(AddMarks, 0, qualified), qualified)
  }
}
