/**
 * Reordering a list of patient records in place by one of three keys:
 * 1 = severity, most severe first; 2 = arrival time, earliest first;
 * 3 = department, in lexicographic order. Any other choice leaves the list
 * as it is. Records with equal keys may end up in any order.
 */
module Sorting {
  import opened Patients

  /**
   * The lexicographic "less than" of two strings: the first differing
   * character decides, and a proper prefix comes before the longer string.
   */
  predicate LexLess(a: string, b: string)
  {
    if a == [] then b != []
    else if b == [] then false
    else if a[0] != b[0] then a[0] < b[0]
    else LexLess(a[1..], b[1..])
  }

  lemma {:induction false} LexLessIrreflexive(a: string)
    ensures !LexLess(a, a)
  {
    if a != [] {
      LexLessIrreflexive(a[1..]);
    }
  }

  lemma {:induction false} LexLessAsymmetric(a: string, b: string)
    requires LexLess(a, b)
    ensures !LexLess(b, a)
  {
    if a != [] && b != [] && a[0] == b[0] {
      LexLessAsymmetric(a[1..], b[1..]);
    }
  }

  lemma {:induction false} LexLessTransitive(a: string, b: string, c: string)
    requires LexLess(a, b) && LexLess(b, c)
    ensures LexLess(a, c)
  {
    if a != [] && a[0] == b[0] && b[0] == c[0] {
      LexLessTransitive(a[1..], b[1..], c[1..]);
    }
  }

  /** Any two strings are equal or ordered one way or the other. */
  lemma {:induction false} LexLessTrichotomous(a: string, b: string)
    ensures a == b || LexLess(a, b) || LexLess(b, a)
  {
    if a != [] && b != [] && a[0] == b[0] {
      LexLessTrichotomous(a[1..], b[1..]);
      if a[1..] == b[1..] {
        assert a == [a[0]] + a[1..] && b == [b[0]] + b[1..];
      }
    }
  }

  /** The comparison each sort key uses: does `x` belong strictly before `y`? */
  predicate Before(choice: int, x: Patient, y: Patient)
  {
    if choice == 1 then x.severity > y.severity
    else if choice == 2 then x.arrivalTime < y.arrivalTime
    else if choice == 3 then LexLess(x.department, y.department)
    else false
  }

  /** No record belongs strictly before one that precedes it in the list. */
  ghost predicate SortedBy(choice: int, s: seq<Patient>)
  {
    forall i, j :: 0 <= i < j < |s| ==> !Before(choice, s[j], s[i])
  }

  lemma BeforeAsymmetric(choice: int, x: Patient, y: Patient)
    requires Before(choice, x, y)
    ensures !Before(choice, y, x)
  {
    if choice == 3 {
      LexLessAsymmetric(x.department, y.department);
    }
  }

  /** "Not strictly before" is transitive for every key. */
  lemma NotBeforeTransitive(choice: int, x: Patient, y: Patient, z: Patient)
    requires !Before(choice, y, x) && !Before(choice, z, y)
    ensures !Before(choice, z, x)
  {
    if choice == 3 && LexLess(z.department, x.department) {
      LexLessTrichotomous(z.department, y.department);
      if LexLess(y.department, z.department) {
        LexLessTransitive(y.department, z.department, x.department);
      }
    }
  }

  /** Sorted by severity means severities never increase along the list. */
  lemma SortedBySeverity(s: seq<Patient>)
    ensures SortedBy(1, s) <==> forall i, j :: 0 <= i < j < |s| ==> s[i].severity >= s[j].severity
  {
  }

  /** Sorted by arrival time means arrival times never decrease along the list. */
  lemma SortedByArrival(s: seq<Patient>)
    ensures SortedBy(2, s) <==> forall i, j :: 0 <= i < j < |s| ==> s[i].arrivalTime <= s[j].arrivalTime
  {
  }

  /** Sorted by department means departments never decrease lexicographically along the list. */
  lemma SortedByDepartment(s: seq<Patient>)
    ensures SortedBy(3, s) <==>
              forall i, j :: 0 <= i < j < |s| ==>
                s[i].department == s[j].department || LexLess(s[i].department, s[j].department)
  {
    forall i, j | 0 <= i < j < |s|
      ensures !LexLess(s[j].department, s[i].department) <==>
                (s[i].department == s[j].department || LexLess(s[i].department, s[j].department))
    {
      LexLessTrichotomous(s[i].department, s[j].department);
      if s[i].department == s[j].department {
        LexLessIrreflexive(s[i].department);
      } else if LexLess(s[i].department, s[j].department) {
        LexLessAsymmetric(s[i].department, s[j].department);
      }
    }
  }

  method Swap(a: array<Patient>, i: int, j: int)
    requires 0 <= i < j < a.Length
    modifies a
    ensures a[i] == old(a[j]) && a[j] == old(a[i])
    ensures forall m :: 0 <= m < a.Length && m != i && m != j ==> a[m] == old(a[m])
    ensures multiset(a[..]) == old(multiset(a[..]))
  {
    a[i], a[j] := a[j], a[i];
  }

  /**
   * Sorts `list` in place by the key `choice` selects, by insertion: each new
   * element is swapped towards the front while it belongs strictly before its
   * left neighbour.
   */
  method SortPatients(list: array<Patient>, choice: int)
    modifies list
    ensures multiset(list[..]) == old(multiset(list[..]))
    ensures 1 <= choice <= 3 ==> SortedBy(choice, list[..])
    ensures !(1 <= choice <= 3) ==> list[..] == old(list[..])
  {
    if choice < 1 || choice > 3 {
      return;
    }
    var i := 0;
    while i < list.Length
      invariant 0 <= i <= list.Length
      invariant SortedBy(choice, list[..i])
      invariant multiset(list[..]) == old(multiset(list[..]))
    {
      var j := i;
      while j > 0 && Before(choice, list[j], list[j - 1])
        invariant 0 <= j <= i
        invariant forall k, l :: 0 <= k < l <= i && k != j && l != j ==> !Before(choice, list[l], list[k])
        invariant forall l :: j < l <= i ==> !Before(choice, list[l], list[j])
        invariant multiset(list[..]) == old(multiset(list[..]))
      {
        BeforeAsymmetric(choice, list[j], list[j - 1]);
        Swap(list, j - 1, j);
        j := j - 1;
      }
      forall k, l | 0 <= k < l <= i
        ensures !Before(choice, list[l], list[k])
      {
        if l == j && k < j - 1 {
          NotBeforeTransitive(choice, list[k], list[j - 1], list[j]);
        }
      }
      i := i + 1;
    }
  }
}
