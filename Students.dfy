/** The grade book of student.py: a dictionary from student name to grade that
    add, update and delete change in place, and a command loop in `main` that
    reads an action, lower-cases it and dispatches. The answers `input()` would
    read are parameters here; what `search_student` prints is returned. */
module Students {
  import opened Util
  import opened Text

  /** `student_data`: student name to grade, both as typed. */
  type Grades = map<string, string>

  /** `student_data.get(name)` tested for truthiness: a stored empty grade reads
      the same as a missing name. */
  function Lookup(g: Grades, name: string): Option<string> {
    if name in g && g[name] != "" then Some(g[name]) else None
  }

  /** `update_student`: a new grade only for a name already present. */
  function Regraded(g: Grades, name: string, grade: string): (r: Grades)
    ensures r.Keys == g.Keys
  {
    if name in g then g[name := grade] else g
  }

  /** `delete_student`: the name's entry goes when it is there. */
  function Removed(g: Grades, name: string): (r: Grades)
    ensures name !in r
    ensures forall k :: k in g && k != name ==> k in r && r[k] == g[k]
    ensures r.Keys <= g.Keys
  {
    if name in g then g - {name} else g
  }

  /** Only the name a request names can change; every other entry stays. */
  lemma RemovedFrame(g: Grades, name: string)
    ensures Removed(g, name).Keys == g.Keys - {name}
  {
  }

  // ------------------------------------------------------- the loop of `main`

  /** What `main` makes of the typed action once it is lower-cased. */
  datatype Action = Add | Search | Update | Delete | Exit | Invalid

  /** One pass of the loop: the action as typed and the answers the chosen
      operation then reads (`grade` is ignored by search and delete). */
  datatype Request = Request(action: string, name: string, grade: string)

  /** The dispatch of `main`: the action is compared after `.lower()`. */
  function ParseAction(typed: string): Action {
    var a := Lower(typed);
    if a == "add" then Add
    else if a == "search" then Search
    else if a == "update" then Update
    else if a == "delete" then Delete
    else if a == "exit" then Exit
    else Invalid
  }

  /** Capitals in the typed action make no difference. */
  lemma ParseIgnoresCase(typed: string)
    ensures ParseAction(typed) == ParseAction(Lower(typed))
  {
    LowerIdempotent(typed);
  }

  /** The dictionary after one request other than exit. */
  function Step(g: Grades, r: Request): (s: Grades)
    ensures forall k :: k != r.name ==> (k in s <==> k in g) && (k in g ==> s[k] == g[k])
    ensures ParseAction(r.action) in {Add, Update, Delete} || s == g
  {
    match ParseAction(r.action)
    case Add => g[r.name := r.grade]
    case Update => Regraded(g, r.name, r.grade)
    case Delete => Removed(g, r.name)
    case _ => g
  }

  /** What one request prints through `search_student`, if it is a search. */
  function Answer(g: Grades, r: Request): seq<Option<string>> {
    if ParseAction(r.action) == Search then [Lookup(g, r.name)] else []
  }

  /** The names an `add` request in `rs` stores. */
  function AddedNames(rs: seq<Request>): (names: set<string>)
    ensures forall i :: 0 <= i < |rs| && ParseAction(rs[i].action) == Add ==> rs[i].name in names
  {
    if rs == [] then {}
    else (if ParseAction(rs[0].action) == Add then {rs[0].name} else {}) + AddedNames(rs[1..])
  }

  /** The dictionary after the loop has read `rs`: it stops at the first exit. */
  function Replay(g: Grades, rs: seq<Request>): (r: Grades)
    ensures r.Keys <= g.Keys + AddedNames(rs)
    decreases |rs|
  {
    if rs == [] || ParseAction(rs[0].action) == Exit then g
    else Replay(Step(g, rs[0]), rs[1..])
  }

  /** Everything the searches in `rs` print, in order, up to the first exit. */
  function Answers(g: Grades, rs: seq<Request>): seq<Option<string>>
    decreases |rs|
  {
    if rs == [] || ParseAction(rs[0].action) == Exit then []
    else Answer(g, rs[0]) + Answers(Step(g, rs[0]), rs[1..])
  }

  /** Nothing typed after an exit has any effect. */
  lemma {:induction false} ReplayExit(g: Grades, rs: seq<Request>, exit: Request, rest: seq<Request>)
    requires ParseAction(exit.action) == Exit
    ensures Replay(g, rs + [exit] + rest) == Replay(g, rs)
    ensures Answers(g, rs + [exit] + rest) == Answers(g, rs)
    decreases |rs|
  {
    if rs == [] {
      assert (rs + [exit] + rest)[0] == exit;
    } else if ParseAction(rs[0].action) != Exit {
      assert (rs + [exit] + rest)[1..] == rs[1..] + [exit] + rest;
      ReplayExit(Step(g, rs[0]), rs[1..], exit, rest);
    }
  }

  /** Requests that neither add, update nor delete leave the dictionary as it was. */
  lemma {:induction false} ReplayReadOnly(g: Grades, rs: seq<Request>)
    requires forall i :: 0 <= i < |rs| ==> ParseAction(rs[i].action) !in {Add, Update, Delete}
    ensures Replay(g, rs) == g
    decreases |rs|
  {
    if rs != [] && ParseAction(rs[0].action) != Exit {
      ReplayReadOnly(Step(g, rs[0]), rs[1..]);
    }
  }

  /** A name no request mentions keeps its entry, or its absence, to the end. */
  lemma {:induction false} ReplayUntouched(g: Grades, rs: seq<Request>, name: string)
    requires forall i :: 0 <= i < |rs| ==> rs[i].name != name
    ensures name in Replay(g, rs) <==> name in g
    ensures name in g ==> Replay(g, rs)[name] == g[name]
    decreases |rs|
  {
    if rs != [] && ParseAction(rs[0].action) != Exit {
      ReplayUntouched(Step(g, rs[0]), rs[1..], name);
    }
  }

  /** A grade just added is found again, unless it is empty: `search_student`
      tests the grade's truthiness, so an empty grade reads as no record. */
  lemma AddThenSearch(g: Grades, add: Request, search: Request)
    requires ParseAction(add.action) == Add && ParseAction(search.action) == Search
    requires search.name == add.name
    ensures Answers(g, [add, search]) == [if add.grade == "" then None else Some(add.grade)]
  {
    var g1 := Step(g, add);
    assert [add, search][1..] == [search];
    assert Answers(g1, [search]) == [Lookup(g1, search.name)] + Answers(g1, []);
  }

  /** An update of an absent name changes nothing, unlike an add. */
  lemma UpdateAbsent(g: Grades, r: Request)
    requires ParseAction(r.action) == Update && r.name !in g
    ensures Step(g, r) == g
  {
  }

  /** Deleting a name and then searching for it finds no record. */
  lemma DeleteThenSearch(g: Grades, name: string)
    ensures Lookup(Removed(g, name), name) == None
  {
  }

  /** One pass of the loop, for a request other than exit. */
  lemma ReplayUnfold(g: Grades, r: Request, rest: seq<Request>)
    requires ParseAction(r.action) != Exit
    ensures Replay(g, [r] + rest) == Replay(Step(g, r), rest)
    ensures Answers(g, [r] + rest) == Answer(g, r) + Answers(Step(g, r), rest)
  {
    var rs := [r] + rest;
    assert rs[0] == r && rs[1..] == rest;
  }

  // -------------------------------------------------- the dictionary in place

  /** `student_data`, which the four operations change in place. */
  class GradeBook {
    var grades: Grades

    /** `student_data = {}` at the start of `main`. */
    constructor ()
      ensures grades == map[]
    {
      grades := map[];
    }

    /** `add_student`: stores the grade, replacing any earlier one. */
    method AddStudent(name: string, grade: string)
      modifies this
      ensures grades == old(grades)[name := grade]
    {
      grades := grades[name := grade];
    }

    /** `search_student`: the grade it prints, or None for "No record found". */
    method SearchStudent(name: string) returns (grade: Option<string>)
      ensures grade == Lookup(grades, name)
      ensures grade.Some? ==> name in grades && grades[name] == grade.value && grade.value != ""
      ensures grade.None? ==> name !in grades || grades[name] == ""
    {
      var stored := if name in grades then Some(grades[name]) else None;
      if stored.Some? && stored.value != "" {
        grade := stored;
      } else {
        grade := None;
      }
    }

    /** `update_student`; `found` tells whether it asked for a grade and
        updated, or printed "No record found". */
    method UpdateStudent(name: string, grade: string) returns (found: bool)
      modifies this
      ensures found == (name in old(grades))
      ensures grades == Regraded(old(grades), name, grade)
    {
      found := name in grades;
      if found {
        grades := grades[name := grade];
      }
    }

    /** `delete_student`; `found` as for update. */
    method DeleteStudent(name: string) returns (found: bool)
      modifies this
      ensures found == (name in old(grades))
      ensures grades == Removed(old(grades), name)
    {
      found := name in grades;
      if found {
        grades := grades - {name};
      }
    }
  }

  /** The `if`/`elif` chain of `main` for one request other than exit: the
      operation it calls and what that prints through `search_student`. */
  method Dispatch(book: GradeBook, r: Request) returns (said: seq<Option<string>>)
    requires ParseAction(r.action) != Exit
    modifies book
    ensures book.grades == Step(old(book.grades), r)
    ensures said == Answer(old(book.grades), r)
  {
    var action := ParseAction(r.action);
    said := [];
    if action == Add {
      book.AddStudent(r.name, r.grade);
    } else if action == Search {
      var grade := book.SearchStudent(r.name);
      said := [grade];
    } else if action == Update {
      var _ := book.UpdateStudent(r.name, r.grade);
    } else if action == Delete {
      var _ := book.DeleteStudent(r.name);
    }
  }

  /** `main` over the requests typed in one session, from an empty book:
      the dictionary when the loop ends and what each search printed. */
  method Session(requests: seq<Request>) returns (final: Grades, answers: seq<Option<string>>)
    ensures final == Replay(map[], requests)
    ensures answers == Answers(map[], requests)
  {
    var book := new GradeBook();
    answers := [];
    var i := 0;
    assert requests[i..] == requests;
    assert answers + Answers(book.grades, requests) == Answers(map[], requests);
    while i < |requests|
      invariant 0 <= i <= |requests|
      invariant Replay(book.grades, requests[i..]) == Replay(map[], requests)
      invariant answers + Answers(book.grades, requests[i..]) == Answers(map[], requests)
    {
      var r := requests[i];
      ghost var before, printed := book.grades, answers;
      assert requests[i..] == [r] + requests[i + 1..];
      if ParseAction(r.action) == Exit {
        break;
      }
      var said := Dispatch(book, r);
      answers := answers + said;
      ReplayUnfold(before, r, requests[i + 1..]);
      AppendAssociative(printed, said, Answers(book.grades, requests[i + 1..]));
      i := i + 1;
    }
    final := book.grades;
  }
}
