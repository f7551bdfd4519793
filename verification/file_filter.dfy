/**
 Which directory entries the toaster parses (`is_test_file` and the name
 filter of `main`'s directory loop).

 `is_test_file` looks for `.test.` with a small matcher: a `.` starts a match
 attempt, and a character that breaks an attempt is consumed without being
 looked at again. So a name is accepted only if it contains `.test.`, but a
 name can contain `.test.` and still be rejected when the `.` that starts it
 is swallowed by a broken attempt, as in `a..test.c`.
 */
module FileFilter {
  import opened Text

  /** The text `is_test_file` looks for. */
  const Target: string := ".test."

  /** The rest of `Target` after its first `ti` characters comes next in `name`, from `i`. */
  predicate RestAt(name: string, i: nat, ti: nat)
    requires ti <= |Target|
  {
    i + |Target| - ti <= |name| && name[i..i + |Target| - ti] == Target[ti..]
  }

  /** Seeing the rest of `Target` from `i` means seeing its next character first, then the rest after that. */
  lemma RestAtStep(name: string, i: nat, ti: nat)
    ensures 1 <= ti < |Target| && RestAt(name, i, ti) ==>
      i < |name| && name[i] == Target[ti] && (ti + 1 < |Target| ==> RestAt(name, i + 1, ti + 1))
  {
    if 1 <= ti < |Target| && RestAt(name, i, ti) {
      assert name[i] == name[i..i + |Target| - ti][0];
      if ti + 1 < |Target| {
        assert name[i + 1..i + |Target| - ti] == name[i..i + |Target| - ti][1..];
        assert Target[ti + 1..] == Target[ti..][1..];
      }
    }
  }

  /**
   The matcher loop from position `i`: `check` is whether an attempt is under
   way and `ti` how many characters of `Target` it has matched. An attempt
   under way that sees the rest of `Target` next succeeds.
   */
  function MatchFrom(name: string, i: nat, check: bool, ti: nat): (r: bool)
    requires i <= |name|
    requires check ==> 1 <= ti < |Target|
    ensures check && RestAt(name, i, ti) ==> r
    decreases |name| - i
  {
    RestAtStep(name, i, ti);
    if i == |name| then false
    else if check then
      if name[i] == Target[ti] then
        (if ti + 1 == |Target| then true else MatchFrom(name, i + 1, true, ti + 1))
      else MatchFrom(name, i + 1, false, ti)
    else if name[i] == '.' then MatchFrom(name, i + 1, true, 1)
    else MatchFrom(name, i + 1, false, ti)
  }

  /** `is_test_file`: a name it accepts contains `.test.` (trailing dot included). */
  function IsTestFile(name: string): (r: bool)
    ensures r ==> Occurs(Target, name)
  {
    if MatchFrom(name, 0, false, 0) then MatchSound(name, 0, false, 0); true else false
  }

  /** `main`'s directory loop skips `.` and `..` and parses only the names `is_test_file` accepts. */
  function Selected(name: string): (r: bool)
    ensures r ==> Occurs(Target, name)
    ensures r ==> name != "." && name != ".."
  {
    if name == "." || name == ".." then false else IsTestFile(name)
  }

  /** What an attempt under way has matched so far. */
  predicate Attempt(name: string, i: nat, check: bool, ti: nat)
    requires i <= |name|
  {
    check ==> 1 <= ti < |Target| && ti <= i && name[i - ti..i] == Target[..ti]
  }

  /** The matcher accepts only from an actual occurrence of `Target`. */
  lemma {:induction false} MatchSound(name: string, i: nat, check: bool, ti: nat)
    requires i <= |name| && (check ==> 1 <= ti < |Target|) && Attempt(name, i, check, ti)
    requires MatchFrom(name, i, check, ti)
    ensures Occurs(Target, name)
    decreases |name| - i
  {
    if check && name[i] == Target[ti] && ti + 1 == |Target| {
      assert name[i - ti..i + 1] == name[i - ti..i] + [name[i]];
      assert OccursAt(Target, name, i - ti);
    } else if check && name[i] == Target[ti] {
      assert name[i - ti..i + 1] == name[i - ti..i] + [name[i]];
      assert Target[..ti + 1] == Target[..ti] + [Target[ti]];
      MatchSound(name, i + 1, true, ti + 1);
    } else if check {
      MatchSound(name, i + 1, false, ti);
    } else if name[i] == '.' {
      assert name[i..i + 1] == [name[i]];
      MatchSound(name, i + 1, true, 1);
    } else {
      MatchSound(name, i + 1, false, ti);
    }
  }

  /** A `.` that breaks a partial match right after `.`, `.t`, `.te` or `.tes`: the case where the matcher loses `.test.`. */
  predicate SwallowsDot(name: string)
  {
    Occurs("..", name) || Occurs(".t.", name) || Occurs(".te.", name) || Occurs(".tes.", name)
  }

  /** A dot right after a partial match of one to four characters is one of the swallowing patterns. */
  lemma BrokenAttemptSwallowsDot(name: string, q: nat, ti: nat)
    requires 1 <= ti <= 4 && q + ti + 1 <= |name|
    requires name[q..q + ti + 1] == Target[..ti] + ['.']
    ensures SwallowsDot(name)
  {
    var seen := name[q..q + ti + 1];
    assert OccursAt(seen, name, q);
    if ti == 1 {
      assert seen == "..";
    } else if ti == 2 {
      assert seen == ".t.";
    } else if ti == 3 {
      assert seen == ".te.";
    } else {
      assert seen == ".tes.";
    }
  }

  /** From any consistent state at or before an occurrence at `p`, the matcher accepts unless a dot is swallowed. */
  lemma {:induction false} MatchComplete(name: string, i: nat, check: bool, ti: nat, p: nat)
    requires OccursAt(Target, name, p) && !SwallowsDot(name[..p + 1])
    requires i <= p && (check ==> 1 <= ti < |Target|) && Attempt(name, i, check, ti)
    ensures MatchFrom(name, i, check, ti)
    decreases p - i
  {
    assert name[p] == name[p..p + 6][0] == '.';
    if i == p {
      if !check {
        assert name[p + 1..p + 6] == name[p..p + 6][1..];
        assert RestAt(name, p + 1, 1);
      } else if ti < 5 {
        var seen := name[p - ti..p + 1];
        assert seen == name[p - ti..p] + ['.'];
        assert seen == Target[..ti] + ['.'];
        assert name[..p + 1][p - ti..p + 1] == seen;
        BrokenAttemptSwallowsDot(name[..p + 1], p - ti, ti);
        assert false;
      }
    } else if check && name[i] == Target[ti] {
      if ti + 1 < |Target| {
        assert name[i - ti..i + 1] == name[i - ti..i] + [name[i]];
        assert Target[..ti + 1] == Target[..ti] + [Target[ti]];
        MatchComplete(name, i + 1, true, ti + 1, p);
      }
    } else if check {
      MatchComplete(name, i + 1, false, ti, p);
    } else if name[i] == '.' {
      assert name[i..i + 1] == [name[i]];
      MatchComplete(name, i + 1, true, 1, p);
    } else {
      MatchComplete(name, i + 1, false, ti, p);
    }
  }

  /**
   A name with `.test.` at `p` is accepted unless a dot is swallowed before
   that occurrence starts: whatever follows its leading dot does not matter,
   since the matcher stops at the first full match.
   */
  lemma IsTestFileComplete(name: string, p: nat)
    requires OccursAt(Target, name, p) && !SwallowsDot(name[..p + 1])
    ensures IsTestFile(name)
  {
    MatchComplete(name, 0, false, 0, p);
  }

  /** `foo.test.c` is a test file; `foo.test` is not (the trailing dot is required). */
  lemma TrailingDotRequired()
    ensures IsTestFile("foo.test.c")
    ensures !IsTestFile("foo.test")
  {
  }

  /** `a..test.c` contains `.test.` but is rejected: the second dot is consumed by the broken attempt. */
  lemma SwallowedDotRejects()
    ensures Occurs(Target, "a..test.c")
    ensures !IsTestFile("a..test.c")
  {
    assert OccursAt(Target, "a..test.c", 2);
  }

  /** Dots after the first full match do not matter: `a.test.c..bak` is accepted although `..` occurs in it. */
  lemma LaterDotsIgnored()
    ensures IsTestFile("a.test.c..bak") && SwallowsDot("a.test.c..bak")
  {
    assert OccursAt("..", "a.test.c..bak", 8);
    assert OccursAt(Target, "a.test.c..bak", 1);
    var head := "a.test.c..bak"[..2];
    assert head == "a.";
    assert head[0..2] == "a.";
    assert !SwallowsDot(head);
    IsTestFileComplete("a.test.c..bak", 1);
  }
}
