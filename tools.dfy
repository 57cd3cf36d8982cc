/**
 Classroom helpers over the roster store (src/classroom_tools.py): picking
 one student of a section at random, and splitting a section into groups.
 Randomness is a parameter: the wheel's pick is an index supplied by the
 caller, and the shuffle may choose any swap partner at each step.
 */
module Tools {
  import opened Records
  import opened Roster

  /** The dictionary `{"id", "name", "section_id"}` handed out for a student. */
  datatype StudentDict = StudentDict(id: string, name: string, sectionId: string)

  function ToDict(s: Student): StudentDict
  {
    StudentDict(s.studentId, s.name, s.sectionId)
  }

  function Dicts(xs: seq<Student>): (ds: seq<StudentDict>)
    ensures |ds| == |xs| && forall i :: 0 <= i < |xs| ==> ds[i] == ToDict(xs[i])
  {
    seq(|xs|, i requires 0 <= i < |xs| => ToDict(xs[i]))
  }

  /** The groups laid end to end. */
  function Flatten<T>(gs: seq<seq<T>>): seq<T>
  {
    if gs == [] then [] else gs[0] + Flatten(gs[1..])
  }

  /** `[xs[i : i + k] for i in range(0, len(xs), k)]`: consecutive slices of
      `k` elements, the last one holding what is left. */
  function Chunks<T>(xs: seq<T>, k: nat): seq<seq<T>>
    requires k >= 1
    decreases |xs|
  {
    if xs == [] then []
    else if |xs| <= k then [xs]
    else [xs[..k]] + Chunks(xs[k..], k)
  }

  /** The slices concatenate back to the sequence they were cut from. */
  lemma {:induction false} ChunksFlatten<T>(xs: seq<T>, k: nat)
    requires k >= 1
    ensures Flatten(Chunks(xs, k)) == xs
    decreases |xs|
  {
    if |xs| > k {
      var rest := Chunks(xs[k..], k);
      ChunksFlatten(xs[k..], k);
      assert ([xs[..k]] + rest)[1..] == rest;
      assert xs[..k] + xs[k..] == xs;
    }
  }

  /** There are ⌈n / k⌉ slices (the least count whose `k`-fold covers the
      `n` elements); every slice but the last holds exactly `k` elements and
      the last one between 1 and `k`. */
  lemma {:induction false} ChunksShape<T>(xs: seq<T>, k: nat)
    requires k >= 1
    ensures var c := Chunks(xs, k);
            && |xs| <= |c| * k < |xs| + k
            && (forall g :: 0 <= g < |c| - 1 ==> |c[g]| == k)
            && (|c| > 0 ==> 1 <= |c[|c| - 1]| <= k)
    decreases |xs|
  {
    if |xs| > k {
      var rest := Chunks(xs[k..], k);
      ChunksShape(xs[k..], k);
      assert Chunks(xs, k) == [xs[..k]] + rest;
      assert (|rest| + 1) * k == |rest| * k + k;
    }
  }

  /** A slice of the dictionaries is the dictionaries of the slice. */
  lemma DictsSlice(xs: seq<Student>, i: nat, j: nat)
    requires i <= j <= |xs|
    ensures Dicts(xs[i..j]) == Dicts(xs)[i..j]
  {
  }

  /** A group size at least the number of students gives one group of all. */
  lemma ChunkSingleGroup<T>(xs: seq<T>, k: nat)
    requires 1 <= |xs| <= k
    ensures Chunks(xs, k) == [xs]
  {
  }

  /** The slices from position `i` on: the one starting at `i`, then those
      from `i + k` on (none once that passes the end). */
  lemma ChunksFrom<T>(xs: seq<T>, i: nat, k: nat)
    requires k >= 1 && i < |xs|
    ensures Chunks(xs[i..], k)
            == [xs[i..if i + k < |xs| then i + k else |xs|]]
               + Chunks(if i + k < |xs| then xs[i + k..] else [], k)
  {
    if i + k < |xs| {
      assert xs[i..][..k] == xs[i..i + k];
      assert xs[i..][k..] == xs[i + k..];
    } else {
      assert xs[i..|xs|] == xs[i..];
    }
  }

  /** `random.shuffle`: the Fisher-Yates shuffle, swapping each position from
      the end down with an arbitrary earlier-or-same position. */
  method Shuffle(a: array<Student>)
    modifies a
    ensures multiset(a[..]) == multiset(old(a[..]))
  {
    var i := a.Length;
    while i > 1
      invariant 0 <= i <= a.Length
      invariant multiset(a[..]) == multiset(old(a[..]))
    {
      i := i - 1;
      var j :| 0 <= j <= i;
      a[i], a[j] := a[j], a[i];
    }
  }

  /** A value found at two positions occurs at least twice. */
  lemma TwiceCounted<T>(ys: seq<T>, i: nat, j: nat)
    requires i < j < |ys| && ys[i] == ys[j]
    ensures multiset(ys)[ys[i]] >= 2
  {
    assert ys == ys[..j] + [ys[j]] + ys[j + 1..];
    assert ys[..j][i] == ys[i];
    assert ys[i] in multiset(ys[..j]);
  }

  /** A value occurring at least twice sits at two positions. */
  lemma TwoPositions<T>(xs: seq<T>, v: T) returns (p: nat, q: nat)
    requires multiset(xs)[v] >= 2
    ensures p < q < |xs| && xs[p] == v && xs[q] == v
  {
    assert v in multiset(xs);
    p :| 0 <= p < |xs| && xs[p] == v;
    assert xs == xs[..p] + [xs[p]] + xs[p + 1..];
    var rest := xs[..p] + xs[p + 1..];
    assert multiset(xs) == multiset(rest) + multiset{v};
    assert v in multiset(rest);
    var r :| 0 <= r < |rest| && rest[r] == v;
    if r < p {
      p, q := r, p;
      assert xs[p] == rest[r];
    } else {
      q := r + 1;
      assert xs[q] == rest[r];
    }
  }

  /** Reordering a listing gives a listing of the same students. */
  lemma PermutedListing(xs: seq<Student>, ys: seq<Student>, bucket: set<string>, students: map<string, Student>)
    requires IsListing(xs, bucket, students)
    requires multiset(ys) == multiset(xs)
    ensures IsListing(ys, bucket, students)
  {
    assert |ys| == |multiset(ys)| == |multiset(xs)| == |xs|;
    forall i | 0 <= i < |ys|
      ensures ys[i].studentId in bucket && ys[i].studentId in students && students[ys[i].studentId] == ys[i]
    {
      assert ys[i] in multiset(xs);
      var j :| 0 <= j < |xs| && xs[j] == ys[i];
    }
    forall i, j | 0 <= i < j < |ys| ensures ys[i].studentId != ys[j].studentId {
      if ys[i].studentId == ys[j].studentId {
        TwiceCounted(ys, i, j);
        var p, q := TwoPositions(xs, ys[i]);
        assert false;
      }
    }
    forall id | id in bucket ensures exists i :: 0 <= i < |ys| && ys[i].studentId == id {
      var j :| 0 <= j < |xs| && xs[j].studentId == id;
      assert xs[j] in multiset(ys);
      var i :| 0 <= i < |ys| && ys[i] == xs[j];
    }
  }

  /** The grouping loop of `create_groups`: walks the shuffled roster in
      strides of `groupSize`, turning each slice (cut short at the end) into
      a group of dictionaries. */
  method GroupSlices(shuffled: seq<Student>, groupSize: nat) returns (groups: seq<seq<StudentDict>>)
    requires groupSize >= 1
    ensures groups == Chunks(Dicts(shuffled), groupSize)
  {
    ghost var ds := Dicts(shuffled);
    var n := |shuffled|;
    groups := [];
    var i := 0;
    while i < n
      invariant 0 <= i
      invariant groups + Chunks(if i < n then ds[i..] else [], groupSize) == Chunks(ds, groupSize)
      decreases n - i
    {
      var end := if i + groupSize < n then i + groupSize else n;
      ChunksFrom(ds, i, groupSize);
      DictsSlice(shuffled, i, end);
      groups := groups + [Dicts(shuffled[i..end])];
      i := i + groupSize;
    }
  }

  class ClassroomTools {
    const manager: StudentManager

    constructor (manager: StudentManager)
      ensures this.manager == manager
    {
      this.manager := manager;
    }

    /** `spin_wheel`: nothing for an unknown or empty section; otherwise the
        student at index `pick` (wrapped round) of the section's roster.
        `pick` stands for `random.choice`. */
    method SpinWheel(sectionId: string, pick: nat) returns (r: Option<StudentDict>, ghost roster: seq<Student>)
      requires manager.Valid()
      ensures r.None? <==> sectionId !in manager.sections || Bucket(manager.rosterIndex, sectionId) == {}
      ensures sectionId in manager.sections ==>
                IsListing(roster, Bucket(manager.rosterIndex, sectionId), manager.students)
      ensures r.Some? ==> |roster| > 0 && r.value == ToDict(roster[pick % |roster|])
      ensures r.Some? ==> r.value.sectionId == sectionId
    {
      var res := manager.GetStudentsBySection(sectionId);
      if res.Err? {
        return None, [];
      }
      var list := res.value;
      roster := list;
      if |list| == 0 {
        return None, roster;
      }
      var selected := list[pick % |list|];
      r := Some(ToDict(selected));
    }

    /** `create_groups`: a group size below 1 is refused whatever the
        section; an unknown or empty section gives no groups; otherwise the
        roster is shuffled and cut into consecutive groups of `groupSize`,
        the last one holding the rest. */
    method CreateGroups(sectionId: string, groupSize: int)
      returns (r: Result<seq<seq<StudentDict>>>, ghost roster: seq<Student>, ghost shuffled: seq<Student>)
      requires manager.Valid()
      ensures r.Err? <==> groupSize < 1
      ensures r.Err? ==> r.error == InvalidArgument
      ensures r.Ok? && (sectionId !in manager.sections || Bucket(manager.rosterIndex, sectionId) == {})
              ==> r.value == []
      ensures r.Ok? && sectionId in manager.sections ==>
                && IsListing(roster, Bucket(manager.rosterIndex, sectionId), manager.students)
                && IsListing(shuffled, Bucket(manager.rosterIndex, sectionId), manager.students)
      ensures r.Ok? ==> multiset(shuffled) == multiset(roster)
                        && r.value == Chunks(Dicts(shuffled), groupSize)
                        && Flatten(r.value) == Dicts(shuffled)
                        && |roster| <= |r.value| * groupSize < |roster| + groupSize
                        && (forall g :: 0 <= g < |r.value| - 1 ==> |r.value[g]| == groupSize)
                        && (|r.value| > 0 ==> 1 <= |r.value[|r.value| - 1]| <= groupSize)
                        && (1 <= |roster| <= groupSize ==> r.value == [Dicts(shuffled)])
    {
      if groupSize < 1 {
        return Err(InvalidArgument), [], [];
      }
      var res := manager.GetStudentsBySection(sectionId);
      if res.Err? {
        return Ok([]), [], [];
      }
      var list := res.value;
      roster := list;
      if |list| == 0 {
        return Ok([]), roster, roster;
      }
      var a := new Student[|list|](i requires 0 <= i < |list| => list[i]);
      assert a[..] == list;
      Shuffle(a);
      shuffled := a[..];
      PermutedListing(roster, shuffled, Bucket(manager.rosterIndex, sectionId), manager.students);
      var groups := GroupSlices(a[..], groupSize);
      ChunksFlatten(Dicts(shuffled), groupSize);
      ChunksShape(Dicts(shuffled), groupSize);
      if |shuffled| <= groupSize {
        ChunkSingleGroup(Dicts(shuffled), groupSize);
      }
      r := Ok(groups);
    }
  }
}
