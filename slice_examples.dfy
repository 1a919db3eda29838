/**
  Callers of the slice helpers that check, from the contracts alone, the two
  worked examples of the package's doc-comments (`IntersperseBy` and
  `IntersperseByIndex`) and further small examples of its documented
  behaviour.
*/
module SliceExamples {
  import opened SliceSpec
  import opened Slices

  method RemoveExample() {
    var a := new int[4];
    a[0], a[1], a[2], a[3] := 1, 2, 3, 2;
    ghost var s := a[..];
    assert s == [1, 2, 3, 2];
    var r := Remove(a, 2);
    assert s[..1] == [1] && s[2..] == [3, 2];
    RemoveFirstAt(s, 2, 1);
    assert r == [1, 3, 2];
    assert a[..] == s;
  }

  method RemoveAbsentExample() {
    var a := new int[4];
    a[0], a[1], a[2], a[3] := 1, 2, 3, 2;
    ghost var s := a[..];
    assert s == [1, 2, 3, 2];
    var r := Remove(a, 7);
    RemoveFirstAbsent(s, 7);
    assert r == [1, 2, 3, 2];
  }

  method RemoveAtExample() {
    var a := new int[4];
    a[0], a[1], a[2], a[3] := 1, 2, 3, 2;
    assert a[..] == [1, 2, 3, 2];
    var r := RemoveAt(a, 3);
    assert r == [1, 2, 3];
    assert a[..] == [1, 2, 3, 2];
  }

  method SearchExamples() {
    var found := Contains([4, 5, 6], 5);
    assert found;
    var i := IndexOf([4, 5, 6, 5], 5);
    assert [4, 5, 6, 5][1] == 5;
    assert i == 1;
    i := IndexOf([4, 5, 6], 7);
    assert i == -1;
  }

  method NumericExamples() {
    var m := Max([]);
    assert m == 0;
    var xs := [3, 9, 2];
    assert xs[0] == 3 && xs[1] == 9 && xs[2] == 2;
    m := Max(xs);
    assert m == 9;
    m := Min(xs);
    assert m == 2;
    var s := Sum([1, 2, 3]);
    OneTwoThree();
    assert s == 6;
  }

  lemma OneTwoThree()
    ensures Total([1, 2, 3]) == 6
  {
    assert [1, 2, 3][..2] == [1, 2];
    assert [1, 2][..1] == [1];
    assert [1][..0] == [];
  }

  lemma AverageExamples()
    ensures Average([1, 2, 3]) == 2
    ensures Average([-3, -4]) == -3
  {
    OneTwoThree();
    assert [-3, -4][..1] == [-3];
    assert [-3][..0] == [];
  }

  method UniqueExamples() {
    var u := Unique([1, 2, 2, 3, 1]);
    assert [1, 2, 2, 3, 1][..4] == [1, 2, 2, 3];
    assert [1, 2, 2, 3][..3] == [1, 2, 2];
    assert [1, 2, 2][..2] == [1, 2];
    assert [1, 2][..1] == [1];
    assert u == [1, 2, 3];
  }

  method AssociateExamples() {
    var m := Associate(["a", "b"], [1, 2, 3]);
    assert ["a", "b"][0] == "a" && ["a", "b"][1] == "b";
    assert m.Keys == {"a", "b"};
    assert m == map["a" := 1, "b" := 2];
    m := Associate(["a", "a"], [1, 2]);
    assert ["a", "a"][1] == "a";
    assert m == map["a" := 2];
  }

  method IntersperseExamples() {
    var abc := ["a", "b", "c"];
    assert abc[0] == "a" && abc[1] == "b" && abc[2] == "c";
    var r := Intersperse(abc, "-");
    assert r[2 * 0] == "a" && r[2 * 1] == "b" && r[2 * 2] == "c";
    assert r[2 * 0 + 1] == "-" && r[2 * 1 + 1] == "-";
    assert r == ["a", "-", "b", "-", "c"];
    r := Intersperse([], "-");
    assert r == [];
    var words := ["first", "second", "third"];
    assert words[0] == "first" && words[1] == "second" && words[2] == "third";
    var after := s => "after " + s;
    r := IntersperseBy(words, after);
    assert r[2 * 0] == "first" && r[2 * 1] == "second" && r[2 * 2] == "third";
    assert r[2 * 0 + 1] == after(words[0]) && r[2 * 1 + 1] == after(words[1]);
    assert after(words[0]) == "after first" && after(words[1]) == "after second";
    assert r == ["first", "after first", "second", "after second", "third"];
    var afterIndex := (i: int) => "after " + Itoa(i);
    r := IntersperseByIndex(words, afterIndex);
    assert r[2 * 0] == "first" && r[2 * 1] == "second" && r[2 * 2] == "third";
    assert r[2 * 0 + 1] == afterIndex(0) && r[2 * 1 + 1] == afterIndex(1);
    assert afterIndex(0) == "after 0" && afterIndex(1) == "after 1";
    assert r == ["first", "after 0", "second", "after 1", "third"];
  }

  /** Decimal rendering of an integer, as `strconv.Itoa` gives it. */
  function Itoa(i: int): string
    decreases if i < 0 then 1 - i else i
  {
    if i < 0 then "-" + Itoa(-i)
    else if i < 10 then [(48 + i) as char]
    else Itoa(i / 10) + [(48 + i % 10) as char]
  }

  method ShuffleExample() {
    var a := new int[3];
    a[0], a[1], a[2] := 7, 8, 9;
    assert a[..] == [7, 8, 9];
    Shuffle(a);
    assert multiset(a[..]) == multiset{7, 8, 9};
  }
}
