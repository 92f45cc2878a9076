/**
 * Course availability conditions: a course can require a grade in other
 * ("source") courses before a user may enter it. The conditions live in the
 * `course_availability` table; `coursecompletion_updatecourse` rebuilds a
 * course's rows from the edit form, `coursecompletion_checkcompletion` decides
 * whether the current user meets them, and the form shows the stored bounds
 * with their trailing zeros trimmed.
 */
module CourseCondition {
  import opened Wrappers
  import opened Php

  /**
   * One repeated group of the course edit form: the selected source course
   * (0 is the "none" entry, which PHP's `empty()` treats as empty) and the two
   * grade bounds (None: NULL).
   */
  datatype ConditionSet = ConditionSet(courseId: nat, gradeMin: Option<real>, gradeMax: Option<real>)

  /** A row of `course_availability`: `courseId` can only be entered with a grade in `sourceCourseId`. */
  datatype Availability = Availability(courseId: nat, sourceCourseId: nat, gradeMin: Option<real>, gradeMax: Option<real>)

  /** The table without the rows of course `id` (`delete_records` by `courseid`). */
  function WithoutCourse(table: seq<Availability>, id: nat): (rest: seq<Availability>)
    ensures |rest| <= |table|
    ensures forall r :: r in rest <==> r in table && r.courseId != id
  {
    if table == [] then []
    else if table[0].courseId == id then WithoutCourse(table[1..], id)
    else [table[0]] + WithoutCourse(table[1..], id)
  }

  /** The rows of course `id`, in table order (`get_records` by `courseid`). */
  function RowsOf(table: seq<Availability>, id: nat): (rows: seq<Availability>)
    ensures |rows| <= |table|
    ensures forall r :: r in rows <==> r in table && r.courseId == id
  {
    if table == [] then []
    else if table[0].courseId == id then [table[0]] + RowsOf(table[1..], id)
    else RowsOf(table[1..], id)
  }

  /**
   * The rows the form data inserts for course `courseId` when the source
   * courses in `linked` have already been seen: empty entries are skipped and
   * a source course already seen is not inserted again.
   */
  function Linked(courseId: nat, data: seq<ConditionSet>, linked: set<nat>): (rows: seq<Availability>)
    ensures |rows| <= |data|
    ensures forall i :: 0 <= i < |rows| ==>
              rows[i].courseId == courseId && rows[i].sourceCourseId != 0 && rows[i].sourceCourseId !in linked
  {
    if data == [] then []
    else
      var c := data[0];
      if c.courseId == 0 then Linked(courseId, data[1..], linked)
      else
        var rest := Linked(courseId, data[1..], linked + {c.courseId});
        if c.courseId in linked then rest
        else [Availability(courseId, c.courseId, c.gradeMin, c.gradeMax)] + rest
  }

  /** The table after `coursecompletion_updatecourse` rebuilt the rows of course `courseId` from `data`. */
  function Updated(table: seq<Availability>, courseId: nat, data: seq<ConditionSet>): (after: seq<Availability>)
    ensures |after| <= |table| + |data|
  {
    WithoutCourse(table, courseId) + Linked(courseId, data, {})
  }

  /**
   * `coursecompletion_updatecourse`: deletes the course's rows, then walks the
   * form data inserting one row per non-empty entry whose source course has
   * not been linked yet. Always returns true.
   */
  method UpdateCourse(table: seq<Availability>, courseId: nat, data: seq<ConditionSet>)
    returns (ok: bool, after: seq<Availability>)
    ensures ok
    ensures after == Updated(table, courseId, data)
  {
    after := WithoutCourse(table, courseId);
    ghost var kept := after;
    var linked: set<nat> := {};
    var i := 0;
    while i < |data|
      invariant 0 <= i <= |data|
      invariant after + Linked(courseId, data[i..], linked) == kept + Linked(courseId, data, {})
    {
      var conditionSet := data[i];
      assert data[i..][0] == conditionSet && data[i..][1..] == data[i + 1..];
      if conditionSet.courseId == 0 {
        i := i + 1;
        continue;
      }
      var row := Availability(courseId, conditionSet.courseId, conditionSet.gradeMin, conditionSet.gradeMax);
      if conditionSet.courseId !in linked {
        after := after + [row];
      }
      linked := linked + {conditionSet.courseId};
      i := i + 1;
    }
    assert data[|data|..] == [];
    ok := true;
  }

  /** The rows of other courses survive an update untouched, and the course's old rows are gone. */
  lemma {:induction false} UpdateReplacesCourseRows(table: seq<Availability>, courseId: nat, data: seq<ConditionSet>)
    ensures forall r :: r in Updated(table, courseId, data) && r.courseId != courseId <==> r in table && r.courseId != courseId
    ensures RowsOf(Updated(table, courseId, data), courseId) == Linked(courseId, data, {})
  {
    RowsOfWithout(table, courseId);
    RowsOfAllOf(Linked(courseId, data, {}), courseId);
    RowsOfConcat(WithoutCourse(table, courseId), Linked(courseId, data, {}), courseId);
  }

  lemma {:induction false} RowsOfWithout(table: seq<Availability>, id: nat)
    ensures RowsOf(WithoutCourse(table, id), id) == []
  {
    if table != [] {
      RowsOfWithout(table[1..], id);
    }
  }

  lemma {:induction false} RowsOfAllOf(rows: seq<Availability>, id: nat)
    requires forall i :: 0 <= i < |rows| ==> rows[i].courseId == id
    ensures RowsOf(rows, id) == rows
    ensures WithoutCourse(rows, id) == []
  {
    if rows != [] {
      RowsOfAllOf(rows[1..], id);
    }
  }

  lemma {:induction false} RowsOfConcat(a: seq<Availability>, b: seq<Availability>, id: nat)
    ensures RowsOf(a + b, id) == RowsOf(a, id) + RowsOf(b, id)
    ensures WithoutCourse(a + b, id) == WithoutCourse(a, id) + WithoutCourse(b, id)
  {
    if a != [] {
      assert (a + b)[0] == a[0] && (a + b)[1..] == a[1..] + b;
      RowsOfConcat(a[1..], b, id);
    } else {
      assert a + b == b;
    }
  }

  lemma {:induction false} WithoutCourseAgain(table: seq<Availability>, id: nat)
    ensures WithoutCourse(WithoutCourse(table, id), id) == WithoutCourse(table, id)
  {
    if table != [] {
      WithoutCourseAgain(table[1..], id);
    }
  }

  /** Saving the same form data twice leaves the table as saving it once. */
  lemma UpdateIdempotent(table: seq<Availability>, courseId: nat, data: seq<ConditionSet>)
    ensures Updated(Updated(table, courseId, data), courseId, data) == Updated(table, courseId, data)
  {
    var kept := WithoutCourse(table, courseId);
    var rows := Linked(courseId, data, {});
    RowsOfConcat(kept, rows, courseId);
    RowsOfAllOf(rows, courseId);
    WithoutCourseAgain(table, courseId);
    assert WithoutCourse(kept + rows, courseId) == kept;
  }

  /** No two rows name the same source course. */
  predicate DistinctSources(rows: seq<Availability>) {
    forall i, j :: 0 <= i < j < |rows| ==> rows[i].sourceCourseId != rows[j].sourceCourseId
  }

  /** No source course gets two rows. */
  lemma {:induction false} LinkedDistinct(courseId: nat, data: seq<ConditionSet>, linked: set<nat>)
    ensures DistinctSources(Linked(courseId, data, linked))
  {
    if data != [] {
      var c := data[0];
      if c.courseId == 0 {
        LinkedDistinct(courseId, data[1..], linked);
        assert Linked(courseId, data, linked) == Linked(courseId, data[1..], linked);
      } else {
        var rest := Linked(courseId, data[1..], linked + {c.courseId});
        LinkedDistinct(courseId, data[1..], linked + {c.courseId});
        if c.courseId !in linked {
          var rows := Linked(courseId, data, linked);
          assert rows == [Availability(courseId, c.courseId, c.gradeMin, c.gradeMax)] + rest;
          assert DistinctSources(rest);
          forall i, j | 0 <= i < j < |rows| ensures rows[i].sourceCourseId != rows[j].sourceCourseId {
            assert rows[j] == rest[j - 1];
            assert rest[j - 1].sourceCourseId !in linked + {c.courseId};
            if i > 0 {
              assert rows[i] == rest[i - 1];
            }
          }
        }
      }
    }
  }

  /** The source courses that get a row are exactly the non-empty ones in the data not linked before. */
  lemma {:induction false} LinkedSources(courseId: nat, data: seq<ConditionSet>, linked: set<nat>)
    ensures (set r | r in Linked(courseId, data, linked) :: r.sourceCourseId)
            == (set c | c in data && c.courseId != 0 :: c.courseId) - linked
  {
    if data != [] {
      var c := data[0];
      var tail := data[1..];
      assert data == [c] + tail;
      var linked' := if c.courseId == 0 then linked else linked + {c.courseId};
      LinkedSources(courseId, tail, linked');
      var all := set d | d in data && d.courseId != 0 :: d.courseId;
      var later := set d | d in tail && d.courseId != 0 :: d.courseId;
      assert all == later + (if c.courseId == 0 then {} else {c.courseId}) by {
        forall d | d in data ensures d == c || d in tail {
        }
      }
      var rest := Linked(courseId, tail, linked');
      var restSources := set r | r in rest :: r.sourceCourseId;
      if c.courseId != 0 && c.courseId !in linked {
        var head := Availability(courseId, c.courseId, c.gradeMin, c.gradeMax);
        assert Linked(courseId, data, linked) == [head] + rest;
        assert (set r | r in [head] + rest :: r.sourceCourseId) == {c.courseId} + restSources;
      }
    }
  }

  /**
   * Every row copies the first non-empty entry of its source course: its bounds
   * come from that entry, and no earlier entry names the same course.
   */
  lemma {:induction false} LinkedFirstWins(courseId: nat, data: seq<ConditionSet>, linked: set<nat>)
    ensures forall r :: r in Linked(courseId, data, linked) ==>
              exists j :: 0 <= j < |data| && data[j].courseId == r.sourceCourseId
                          && r == Availability(courseId, data[j].courseId, data[j].gradeMin, data[j].gradeMax)
                          && forall k :: 0 <= k < j ==> data[k].courseId != r.sourceCourseId
  {
    if data != [] {
      var c := data[0];
      var tail := data[1..];
      var linked' := if c.courseId == 0 then linked else linked + {c.courseId};
      LinkedFirstWins(courseId, tail, linked');
      var rest := Linked(courseId, tail, linked');
      forall r | r in Linked(courseId, data, linked)
        ensures exists j :: 0 <= j < |data| && data[j].courseId == r.sourceCourseId
                            && r == Availability(courseId, data[j].courseId, data[j].gradeMin, data[j].gradeMax)
                            && forall k :: 0 <= k < j ==> data[k].courseId != r.sourceCourseId
      {
        if r in rest {
          var j' :| 0 <= j' < |tail| && tail[j'].courseId == r.sourceCourseId
                    && r == Availability(courseId, tail[j'].courseId, tail[j'].gradeMin, tail[j'].gradeMax)
                    && forall k :: 0 <= k < j' ==> tail[k].courseId != r.sourceCourseId;
          // the head is empty or linked by now, and a row's source is neither
          assert r.sourceCourseId != 0 && r.sourceCourseId !in linked';
          assert data[0].courseId != r.sourceCourseId;
          assert forall k :: 1 <= k < j' + 1 ==> data[k] == tail[k - 1];
          assert data[j' + 1] == tail[j'];
        } else {
          assert r == Availability(courseId, c.courseId, c.gradeMin, c.gradeMax);
        }
      }
    }
  }

  /** Why a condition is outstanding; the message shown is an opaque token carrying it. */
  datatype Reason = NoGradeItem | NoGrade | BelowMinimum | AboveMaximum

  /** One entry of the list of requirements shown to the user. */
  datatype Message = Message(sourceCourseId: nat, reason: Reason)

  /** The outcome of `coursecompletion_checkcompletion`: `false`, or the list of requirements. */
  datatype Completion = Met | Outstanding(messages: seq<Message>)

  /** The database as the check reads it: existing courses, course grade items, and final grades (None: NULL). */
  datatype Gradebook = Gradebook(courses: set<nat>, courseItems: map<nat, nat>, grades: map<(nat, nat), Option<real>>)

  /** `finalgrade < grademin`; a NULL grade compares below any bound. */
  predicate Below(grade: Option<real>, min: real) {
    grade.None? || grade.value < min
  }

  /** `finalgrade > grademax`; a NULL grade is never above a bound. */
  predicate Above(grade: Option<real>, max: real) {
    grade.Some? && grade.value > max
  }

  /** The grade satisfies the bounds that are set. */
  predicate WithinBounds(grade: Option<real>, min: Option<real>, max: Option<real>) {
    (min.None? || (grade.Some? && grade.value >= min.value)) && (max.None? || grade.None? || grade.value <= max.value)
  }

  /** The decision on one condition row for user `userId`: None when it does not hold the user back. */
  function Verdict(row: Availability, book: Gradebook, userId: nat): (v: Option<Reason>)
    // a condition on a course that no longer exists never holds the user back
    ensures row.sourceCourseId !in book.courses ==> v.None?
    ensures v.None? <==>
              || row.sourceCourseId !in book.courses
              || (&& row.sourceCourseId in book.courseItems
                  && (book.courseItems[row.sourceCourseId], userId) in book.grades
                  && WithinBounds(book.grades[(book.courseItems[row.sourceCourseId], userId)], row.gradeMin, row.gradeMax))
    // which reason goes with which case
    ensures v == Some(NoGradeItem) <==> row.sourceCourseId in book.courses && row.sourceCourseId !in book.courseItems
    ensures v == Some(NoGrade) <==>
              && row.sourceCourseId in book.courses
              && row.sourceCourseId in book.courseItems
              && (book.courseItems[row.sourceCourseId], userId) !in book.grades
    ensures v == Some(BelowMinimum) <==>
              && row.sourceCourseId in book.courses
              && row.sourceCourseId in book.courseItems
              && (book.courseItems[row.sourceCourseId], userId) in book.grades
              && row.gradeMin.Some? && Below(book.grades[(book.courseItems[row.sourceCourseId], userId)], row.gradeMin.value)
    ensures v == Some(AboveMaximum) <==>
              && row.sourceCourseId in book.courses
              && row.sourceCourseId in book.courseItems
              && (book.courseItems[row.sourceCourseId], userId) in book.grades
              && !(row.gradeMin.Some? && Below(book.grades[(book.courseItems[row.sourceCourseId], userId)], row.gradeMin.value))
              && row.gradeMax.Some? && Above(book.grades[(book.courseItems[row.sourceCourseId], userId)], row.gradeMax.value)
    // the minimum is checked before the maximum
    ensures v == Some(AboveMaximum) ==>
              && row.sourceCourseId in book.courseItems
              && (book.courseItems[row.sourceCourseId], userId) in book.grades
              && (row.gradeMin.None? || !Below(book.grades[(book.courseItems[row.sourceCourseId], userId)], row.gradeMin.value))
  {
    var src := row.sourceCourseId;
    if src !in book.courses then None
    else if src !in book.courseItems then Some(NoGradeItem)
    else if (book.courseItems[src], userId) !in book.grades then Some(NoGrade)
    else
      var grade := book.grades[(book.courseItems[src], userId)];
      if row.gradeMin.Some? && Below(grade, row.gradeMin.value) then Some(BelowMinimum)
      else if row.gradeMax.Some? && Above(grade, row.gradeMax.value) then Some(AboveMaximum)
      else None
  }

  /** The messages for the rows, in row order: one per outstanding condition. */
  function Messages(rows: seq<Availability>, book: Gradebook, userId: nat): (ms: seq<Message>)
    ensures |ms| <= |rows|
  {
    if rows == [] then []
    else
      Emitted(rows[0], book, userId) + Messages(rows[1..], book, userId)
  }

  /** The message one row contributes: one when it is outstanding, none otherwise. */
  function Emitted(row: Availability, book: Gradebook, userId: nat): (ms: seq<Message>)
    ensures |ms| <= 1
    ensures ms != [] <==> Verdict(row, book, userId).Some?
  {
    var v := Verdict(row, book, userId);
    if v.Some? then [Message(row.sourceCourseId, v.value)] else []
  }

  /** No message exactly when no condition is outstanding. */
  lemma {:induction false} MessagesEmptyIff(rows: seq<Availability>, book: Gradebook, userId: nat)
    ensures Messages(rows, book, userId) == [] <==> forall i :: 0 <= i < |rows| ==> Verdict(rows[i], book, userId).None?
  {
    if rows != [] {
      MessagesEmptyIff(rows[1..], book, userId);
      assert forall i :: 1 <= i < |rows| ==> rows[i] == rows[1..][i - 1];
    }
  }

  /** Each message names an outstanding row and its reason. */
  lemma {:induction false} MessagesAreOutstandingRows(rows: seq<Availability>, book: Gradebook, userId: nat)
    ensures forall m :: m in Messages(rows, book, userId) ==>
              exists r :: r in rows && r.sourceCourseId == m.sourceCourseId && Verdict(r, book, userId) == Some(m.reason)
  {
    if rows != [] {
      MessagesAreOutstandingRows(rows[1..], book, userId);
      forall m | m in Messages(rows, book, userId)
        ensures exists r :: r in rows && r.sourceCourseId == m.sourceCourseId && Verdict(r, book, userId) == Some(m.reason)
      {
        if m in Messages(rows[1..], book, userId) {
          var r :| r in rows[1..] && r.sourceCourseId == m.sourceCourseId && Verdict(r, book, userId) == Some(m.reason);
          assert r in rows;
        } else {
          assert m == Message(rows[0].sourceCourseId, Verdict(rows[0], book, userId).value);
        }
      }
    }
  }

  /** How many of the rows are outstanding for the user. */
  function OutstandingCount(rows: seq<Availability>, book: Gradebook, userId: nat): (n: nat)
    ensures n <= |rows|
  {
    if rows == [] then 0
    else (if Verdict(rows[0], book, userId).Some? then 1 else 0) + OutstandingCount(rows[1..], book, userId)
  }

  /** One message per outstanding row: the number of messages is the number of outstanding rows. */
  lemma {:induction false} MessagesCount(rows: seq<Availability>, book: Gradebook, userId: nat)
    ensures |Messages(rows, book, userId)| == OutstandingCount(rows, book, userId)
  {
    if rows != [] {
      MessagesCount(rows[1..], book, userId);
    }
  }

  /** Every outstanding row contributes its message. */
  lemma {:induction false} MessagesComplete(rows: seq<Availability>, book: Gradebook, userId: nat)
    ensures forall i :: 0 <= i < |rows| && Verdict(rows[i], book, userId).Some? ==>
              Message(rows[i].sourceCourseId, Verdict(rows[i], book, userId).value) in Messages(rows, book, userId)
  {
    if rows != [] {
      MessagesComplete(rows[1..], book, userId);
      var ms := Messages(rows, book, userId);
      assert ms == Emitted(rows[0], book, userId) + Messages(rows[1..], book, userId);
      forall i | 0 <= i < |rows| && Verdict(rows[i], book, userId).Some?
        ensures Message(rows[i].sourceCourseId, Verdict(rows[i], book, userId).value) in ms
      {
        if i > 0 {
          assert rows[i] == rows[1..][i - 1];
        }
      }
    }
  }

  /** The rows whose source course still exists. */
  function Present(rows: seq<Availability>, courses: set<nat>): (kept: seq<Availability>)
    ensures forall r :: r in kept <==> r in rows && r.sourceCourseId in courses
  {
    if rows == [] then []
    else if rows[0].sourceCourseId in courses then [rows[0]] + Present(rows[1..], courses)
    else Present(rows[1..], courses)
  }

  /** Deleting the conditions on missing courses changes nothing about the check. */
  lemma {:induction false} MissingSourcesIgnored(rows: seq<Availability>, book: Gradebook, userId: nat)
    ensures Messages(rows, book, userId) == Messages(Present(rows, book.courses), book, userId)
  {
    if rows != [] {
      MissingSourcesIgnored(rows[1..], book, userId);
      if rows[0].sourceCourseId in book.courses {
        var p := Present(rows, book.courses);
        assert p[0] == rows[0] && p[1..] == Present(rows[1..], book.courses);
      }
    }
  }

  lemma MessagesStep(earlier: seq<Message>, rows: seq<Availability>, i: nat, book: Gradebook, userId: nat)
    requires i < |rows|
    ensures earlier + Emitted(rows[i], book, userId) + Messages(rows[i + 1..], book, userId)
            == earlier + Messages(rows[i..], book, userId)
  {
    assert rows[i..][0] == rows[i] && rows[i..][1..] == rows[i + 1..];
  }

  /**
   * `coursecompletion_checkcompletion` for user `userId`: walks the course's
   * condition rows, collecting a message for each outstanding one; `Met`
   * stands for the `false` returned when nothing is outstanding.
   */
  method CheckCompletion(table: seq<Availability>, courseId: nat, book: Gradebook, userId: nat) returns (c: Completion)
    // see MessagesEmptyIff: no message means no outstanding condition
    ensures var ms := Messages(RowsOf(table, courseId), book, userId);
            (c.Met? <==> ms == []) && (c.Outstanding? ==> c.messages == ms)
  {
    var elements := RowsOf(table, courseId);
    var hasOutstanding := false;
    var messages: seq<Message> := [];
    var i := 0;
    assert elements[i..] == elements;
    while i < |elements|
      invariant 0 <= i <= |elements|
      invariant messages + Messages(elements[i..], book, userId) == Messages(elements, book, userId)
      invariant hasOutstanding <==> messages != []
    {
      var ce := elements[i];
      assert elements[i..][0] == ce && elements[i..][1..] == elements[i + 1..];
      ghost var earlier := messages;
      var src := ce.sourceCourseId;
      if src !in book.courses {
        // the condition can never be met: ignored
      } else if src !in book.courseItems {
        hasOutstanding := true;
        messages := messages + [Message(src, NoGradeItem)];
      } else {
        var key := (book.courseItems[src], userId);
        if key !in book.grades {
          hasOutstanding := true;
          messages := messages + [Message(src, NoGrade)];
        } else if ce.gradeMin.Some? && Below(book.grades[key], ce.gradeMin.value) {
          hasOutstanding := true;
          messages := messages + [Message(src, BelowMinimum)];
        } else if ce.gradeMax.Some? && Above(book.grades[key], ce.gradeMax.value) {
          hasOutstanding := true;
          messages := messages + [Message(src, AboveMaximum)];
        }
      }
      assert messages == earlier + Emitted(ce, book, userId);
      MessagesStep(earlier, elements, i, book, userId);
      i := i + 1;
    }
    assert elements[|elements|..] == [];
    if hasOutstanding {
      c := Outstanding(messages);
    } else {
      c := Met;
    }
  }

  /** After an update, the check reads exactly the rows the update inserted. */
  lemma CheckReadsUpdatedRows(table: seq<Availability>, courseId: nat, data: seq<ConditionSet>, book: Gradebook, userId: nat)
    ensures Messages(RowsOf(Updated(table, courseId, data), courseId), book, userId)
            == Messages(Linked(courseId, data, {}), book, userId)
  {
    UpdateReplacesCourseRows(table, courseId, data);
  }

  /** `rtrim($s, $ch)`: `s` without its trailing run of `ch`. */
  function RTrim(s: string, ch: char): (r: string)
    ensures |r| <= |s| && r == s[..|r|]
    ensures r == [] || r[|r| - 1] != ch
    ensures forall i :: |r| <= i < |s| ==> s[i] == ch
  {
    if s == [] || s[|s| - 1] != ch then s else RTrim(s[..|s| - 1], ch)
  }

  /** A stored bound as the edit form shows it: NULL as '', otherwise trailing zeros and then a trailing point removed. */
  function GradeDisplay(stored: Option<string>): (shown: string)
    ensures stored.None? ==> shown == ""
    ensures stored.Some? ==> |shown| <= |stored.value| && shown == stored.value[..|shown|]
  {
    if stored.None? then "" else RTrim(RTrim(stored.value, '0'), '.')
  }

  predicate AllDigits(s: string) {
    forall i :: 0 <= i < |s| ==> IsDigit(s[i])
  }

  /** A string that does not end in `ch` is left as it is. */
  lemma RTrimNothing(s: string, ch: char)
    requires s != [] && s[|s| - 1] != ch
    ensures RTrim(s, ch) == s
  {
  }

  lemma {:induction false} RTrimAfterPrefix(s: string, t: string, ch: char)
    requires RTrim(t, ch) != []
    ensures RTrim(s + t, ch) == s + RTrim(t, ch)
    decreases |t|
  {
    if t[|t| - 1] == ch {
      assert (s + t)[..|s + t| - 1] == s + t[..|t| - 1];
      RTrimAfterPrefix(s, t[..|t| - 1], ch);
    }
  }

  lemma {:induction false} RTrimAllOf(s: string, t: string, ch: char)
    requires RTrim(t, ch) == []
    ensures RTrim(s + t, ch) == RTrim(s, ch)
    decreases |t|
  {
    if t != [] {
      assert (s + t)[..|s + t| - 1] == s + t[..|t| - 1];
      RTrimAllOf(s, t[..|t| - 1], ch);
    } else {
      assert s + t == s;
    }
  }

  /**
   * A bound stored as `whole.fraction` shows the whole part, followed by the
   * fraction without its trailing zeros when any digit of it is left.
   */
  lemma {:induction false} GradeDisplayOfDecimal(whole: string, fraction: string)
    requires whole != [] && AllDigits(whole) && AllDigits(fraction)
    ensures var frac := RTrim(fraction, '0');
            GradeDisplay(Some(whole + "." + fraction)) == if frac == [] then whole else whole + "." + frac
  {
    if RTrim(fraction, '0') == [] {
      WholeDisplay(whole, fraction);
    } else {
      FractionDisplay(whole, fraction);
    }
  }

  lemma {:induction false} WholeDisplay(whole: string, fraction: string)
    requires whole != [] && AllDigits(whole) && RTrim(fraction, '0') == []
    ensures GradeDisplay(Some(whole + "." + fraction)) == whole
  {
    var s := whole + ".";
    assert s + fraction == whole + "." + fraction;
    RTrimAllOf(s, fraction, '0');
    RTrimNothing(s, '0');
    assert s[..|s| - 1] == whole;
    assert RTrim(s, '.') == RTrim(whole, '.');
    assert IsDigit(whole[|whole| - 1]);
    RTrimNothing(whole, '.');
  }

  lemma {:induction false} FractionDisplay(whole: string, fraction: string)
    requires AllDigits(fraction) && RTrim(fraction, '0') != []
    ensures GradeDisplay(Some(whole + "." + fraction)) == whole + "." + RTrim(fraction, '0')
  {
    var frac := RTrim(fraction, '0');
    var s := whole + ".";
    assert s + fraction == whole + "." + fraction;
    RTrimAfterPrefix(s, fraction, '0');
    assert frac[|frac| - 1] == fraction[|frac| - 1];
    assert IsDigit(frac[|frac| - 1]);
    assert (s + frac)[|s + frac| - 1] == frac[|frac| - 1];
    RTrimNothing(s + frac, '.');
    assert s + frac == whole + "." + frac;
  }

  /** A string made only of `ch` trims to nothing. */
  lemma RTrimOnly(t: string, ch: char)
    requires forall i :: 0 <= i < |t| ==> t[i] == ch
    ensures RTrim(t, ch) == []
  {
  }

  /** The two shapes the stored five-decimal bounds take. */
  lemma GradeDisplayExamples()
    ensures GradeDisplay(Some("5.50000")) == "5.5"
    ensures GradeDisplay(Some("10.00000")) == "10"
  {
    RTrimOnly("0000", '0');
    RTrimAllOf("5", "0000", '0');
    assert "5" + "0000" == "50000";
    GradeDisplayOfDecimal("5", "50000");
    assert "5" + "." + "50000" == "5.50000";
    RTrimOnly("00000", '0');
    GradeDisplayOfDecimal("10", "00000");
    assert "10" + "." + "00000" == "10.00000";
  }
}
