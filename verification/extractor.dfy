/**
 The test-function extractor (`trim_function_buf`, `parse_file`).

 `ParseFile` follows the C structure: it calls `NextToken` repeatedly, appends
 every character each call read to the text buffer, and acts on the token:
 `Void` switches to name mode, `FnName` records the name and switches back,
 braces move the depth counter, and a `}` that brings the depth back to 0
 emits one case cut out of the buffer and clears the buffer. End of input
 stops the scan and discards whatever was unfinished.

 `Run` is the same scanner written as a per-character step function over an
 explicit state; `ParseIsRun` proves the two agree, and the file-level facts
 are proved about `Run` and carried over.
 */
module Extractor {
  import opened Tokenizer
  import opened Text
  import CaseList

  type Case = CaseList.Case

  /** The scanner's state: mode, the word in progress, the text buffer, brace depth, last name, cases so far. */
  datatype ScanState = ScanState(
    inName: bool,
    token: string,
    buf: string,
    braces: int,
    fnName: string,
    cases: seq<Case>)

  /** The state `parse_file` starts each file in. */
  function Start(): ScanState
  {
    ScanState(false, [], [], 0, [], [])
  }

  /** The four characters at `i` spell `void`. */
  predicate VoidAt(buf: string, i: nat)
  {
    i + 4 <= |buf| && buf[i..i + 4] == "void"
  }

  /** The forward search of `trim_function_buf`, continued from `i`. */
  function FirstVoidFrom(buf: string, i: nat): (r: nat)
    requires i <= |buf|
    requires forall j | 0 <= j < i :: !VoidAt(buf, j)
    ensures (exists j :: VoidAt(buf, j)) ==> VoidAt(buf, r) && forall j | 0 <= j < r :: !VoidAt(buf, j)
    ensures (forall j :: !VoidAt(buf, j)) ==> r == 0
    decreases |buf| - i
  {
    if i == |buf| then 0
    else if VoidAt(buf, i) then i
    else FirstVoidFrom(buf, i + 1)
  }

  /** Where the function text starts: the first `void` in the buffer, or 0 when there is none. */
  function FirstVoid(buf: string): (r: nat)
    ensures (exists j :: VoidAt(buf, j)) ==> VoidAt(buf, r) && forall j | 0 <= j < r :: !VoidAt(buf, j)
    ensures (forall j :: !VoidAt(buf, j)) ==> r == 0
  {
    FirstVoidFrom(buf, 0)
  }

  /** The backward search of `trim_function_buf` over `buf[..n]`: the last `}`. */
  function LastCloseBefore(buf: string, n: nat): (r: nat)
    requires n <= |buf| && '}' in buf[..n]
    ensures r < n && buf[r] == '}'
    ensures forall j | r < j < n :: buf[j] != '}'
  {
    if buf[n - 1] == '}' then n - 1
    else
      assert buf[..n] == buf[..n - 1] + [buf[n - 1]];
      LastCloseBefore(buf, n - 1)
  }

  /** The last `}` in the buffer. */
  function LastClose(buf: string): (r: nat)
    requires '}' in buf
    ensures r < |buf| && buf[r] == '}'
    ensures forall j | r < j < |buf| :: buf[j] != '}'
  {
    assert buf[..|buf|] == buf;
    LastCloseBefore(buf, |buf|)
  }

  /** The buffer can be trimmed: it has a `}` and the first `void` does not come after the last `}`. */
  predicate Trimmable(buf: string)
  {
    '}' in buf && FirstVoid(buf) <= LastClose(buf)
  }

  /** A `void` found by the search lies wholly before the last `}` it may be cut against. */
  lemma VoidIsBeforeLastClose(buf: string)
    requires Trimmable(buf)
    ensures (exists j :: VoidAt(buf, j)) ==> FirstVoid(buf) + 5 <= LastClose(buf) + 1
  {
    var a := FirstVoid(buf);
    if exists j :: VoidAt(buf, j) {
      assert buf[a..a + 4] == "void";
      forall j | a <= j < a + 4 ensures buf[j] != '}' {
        assert buf[j] == buf[a..a + 4][j - a];
      }
    }
  }

  /**
   The function text `parse_file` copies out of the buffer after
   `trim_function_buf`: from the first `void` (or the start) through the last
   `}`, followed by one newline.
   */
  function TrimFunction(buf: string): (r: string)
    requires Trimmable(buf)
    ensures |r| >= 2 && r[|r| - 2] == '}' && r[|r| - 1] == '\n'
    ensures FirstVoid(buf) + |r| - 1 <= |buf|
    ensures r[..|r| - 1] == buf[FirstVoid(buf)..FirstVoid(buf) + |r| - 1]
    ensures forall j | FirstVoid(buf) + |r| - 1 <= j < |buf| :: buf[j] != '}'
    ensures (exists j :: VoidAt(buf, j)) ==> |r| >= 6 && r[..4] == "void"
  {
    var a, b := FirstVoid(buf), LastClose(buf) + 1;
    VoidIsBeforeLastClose(buf);
    assert (exists j :: VoidAt(buf, j)) ==> buf[a..b][..4] == buf[a..a + 4];
    buf[a..b] + "\n"
  }

  /** A buffer whose last character is `}` can always be trimmed, and its last `}` is that character. */
  lemma EndsInCloseTrimmable(buf: string)
    requires |buf| > 0 && buf[|buf| - 1] == '}'
    ensures Trimmable(buf) && LastClose(buf) == |buf| - 1
  {
    var a := FirstVoid(buf);
    if exists j :: VoidAt(buf, j) {
      assert buf[a..a + 4] == "void";
      if a + 4 > |buf| - 1 {
        assert buf[|buf| - 1] == buf[a..a + 4][|buf| - 1 - a];
      }
    }
  }

  /**
   The C search compares four-byte windows at every offset below `n`, even
   those that run past `n` into stale text left by an earlier function (and
   past the end of the storage, which reads as no match here).
   */
  function StaleSearchFrom(mem: string, n: nat, i: nat): (r: nat)
    requires n <= |mem|
    ensures r == 0 || (i <= r < n && VoidAt(mem, r))
    ensures forall j | i <= j < r :: !VoidAt(mem, j)
    ensures (forall j | i <= j < n :: !VoidAt(mem, j)) ==> r == 0
    ensures (exists j | i <= j < n :: VoidAt(mem, j)) ==> i <= r < n && VoidAt(mem, r)
    ensures i < n && VoidAt(mem, i) ==> r == i
    decreases n - i
  {
    if i >= n then 0
    else if VoidAt(mem, i) then i
    else StaleSearchFrom(mem, n, i + 1)
  }

  /**
   The windows that run past `n` never match, because the buffer's last
   character is the closing `}`: the search over stale memory finds what a
   search of the buffer alone finds.
   */
  lemma {:induction false} StaleSearchIsFirstVoid(mem: string, n: nat, i: nat)
    requires 0 < n <= |mem| && mem[n - 1] == '}' && i <= n
    requires forall j | 0 <= j < i :: !VoidAt(mem[..n], j)
    ensures StaleSearchFrom(mem, n, i) == FirstVoidFrom(mem[..n], i)
    decreases n - i
  {
    var buf := mem[..n];
    if i < n {
      if i + 4 <= n {
        assert mem[i..i + 4] == buf[i..i + 4];
      } else if i + 4 <= |mem| {
        assert mem[i..i + 4][n - 1 - i] == '}';
      }
      if !VoidAt(buf, i) {
        StaleSearchIsFirstVoid(mem, n, i + 1);
      }
    }
  }

  /** Handling one token in `parse_file`'s switch. */
  function Handle(st: ScanState, t: Token, file: string): (r: ScanState)
    requires t.CurlyClose? ==> |st.buf| > 0 && st.buf[|st.buf| - 1] == '}'
    ensures r.token == st.token
  {
    match t
    case Void => st.(inName := true)
    case CurlyOpen => st.(braces := st.braces + 1)
    case CurlyClose =>
      if st.braces - 1 == 0 then
        EndsInCloseTrimmable(st.buf);
        var item := CaseList.Case(file, st.fnName, TrimFunction(st.buf));
        st.(braces := 0, cases := st.cases + [item], buf := [])
      else
        st.(braces := st.braces - 1)
    case FnName(name) => st.(fnName := name, inName := false)
  }

  /**
   Only a `}` that brings the depth back to 0 emits: one case, named by the
   last recorded name, whose text (before its newline) is a piece of the
   buffer ending in that `}`; the buffer is then cleared. Every other token
   leaves the cases and the buffer alone. `{` deepens by one and any other
   `}` returns by one; `Void` enters name mode; a name is recorded and
   leaves it.
   */
  lemma HandleEmits(st: ScanState, t: Token, file: string)
    requires t.CurlyClose? ==> |st.buf| > 0 && st.buf[|st.buf| - 1] == '}'
    ensures t.CurlyClose? && st.braces == 1 ==> var r := Handle(st, t, file);
      && |r.cases| == |st.cases| + 1 && r.cases[..|st.cases|] == st.cases
      && r.buf == [] && r.braces == 0
      && var c := r.cases[|st.cases|];
         c.fileName == file && c.functionName == st.fnName
         && |c.text| >= 2 && c.text[|c.text| - 2] == '}' && c.text[|c.text| - 1] == '\n'
         && Occurs(c.text[..|c.text| - 1], st.buf)
    ensures !(t.CurlyClose? && st.braces == 1) ==> Handle(st, t, file).cases == st.cases && Handle(st, t, file).buf == st.buf
    ensures t.CurlyOpen? ==> Handle(st, t, file).braces == st.braces + 1
    ensures t.CurlyClose? && st.braces != 1 ==> Handle(st, t, file).braces == st.braces - 1
    ensures !t.CurlyOpen? && !t.CurlyClose? ==> Handle(st, t, file).braces == st.braces
    ensures t.Void? ==> Handle(st, t, file).inName
    ensures t.FnName? ==> !Handle(st, t, file).inName && Handle(st, t, file).fnName == t.name
  {
    if t.CurlyClose? && st.braces == 1 {
      EndsInCloseTrimmable(st.buf);
      var text := TrimFunction(st.buf);
      assert OccursAt(text[..|text| - 1], st.buf, FirstVoid(st.buf));
      var r := Handle(st, t, file);
      assert r.cases == st.cases + [CaseList.Case(file, st.fnName, text)];
    }
  }

  /** Handling a token appends no case, or one case of this file. */
  lemma HandleAppends(st: ScanState, t: Token, file: string)
    requires t.CurlyClose? ==> |st.buf| > 0 && st.buf[|st.buf| - 1] == '}'
    ensures var r := Handle(st, t, file);
      r.cases == st.cases || (|r.cases| == |st.cases| + 1 && r.cases[..|st.cases|] == st.cases && r.cases[|st.cases|].fileName == file)
  {
  }

  /** `parse_file`'s loop over the unread input `s`: call the tokenizer, buffer what it read, handle the token. */
  function ParseFrom(file: string, s: string, st: ScanState): (r: ScanState)
    ensures st.cases <= r.cases
    ensures forall j | |st.cases| <= j < |r.cases| :: r.cases[j].fileName == file
    decreases |s|
  {
    match NextToken(s, st.inName)
    case Eof => st.(buf := st.buf + s)
    case Lexed(t, k) =>
      var st1 := st.(buf := st.buf + s[..k]);
      BufEndsWith(st.buf, s, 0, k);
      assert s[..k] == s[0..k];
      HandleAppends(st1, t, file);
      ParseFrom(file, s[k..], Handle(st1, t, file))
  }

  /** The cases `parse_file` finds in one file's contents, in the order their bodies close. */
  function ParseFile(file: string, contents: string): (r: seq<Case>)
    ensures r == Run(Start(), contents, file).cases
  {
    ParseIsRun(file, contents, Start());
    ParseFrom(file, contents, Start()).cases
  }

  /** Reading `c` closes a function body: a `}` in normal mode at depth 1. */
  predicate Closes(st: ScanState, c: char)
  {
    !st.inName && c == '}' && st.braces == 1
  }

  /** The case emitted when `c` closes a body. */
  function Emitted(st: ScanState, c: char, file: string): Case
    requires Closes(st, c)
  {
    EndsInCloseTrimmable(st.buf + [c]);
    CaseList.Case(file, st.fnName, TrimFunction(st.buf + [c]))
  }

  /**
   The scanner as one step per character: the character joins the buffer;
   in name mode it extends the name until `(`; in normal mode a brace, or a
   space/newline after the word `void`/`void*`, is handled as a token and
   other spaces/newlines drop the word.
   */
  function Step(st: ScanState, c: char, file: string): ScanState
  {
    var st1 := st.(buf := st.buf + [c]);
    if st.inName then
      if c == '(' then Handle(st1.(token := []), FnName(st.token), file)
      else st1.(token := st.token + [c])
    else if c == '{' || c == '}' || (EndsWord(c) && IsVoid(st.token)) then
      Handle(st1.(token := []), StopToken(c), file)
    else if EndsWord(c) then st1.(token := [])
    else st1.(token := st.token + [c])
  }

  /**
   What one step does: a closing `}` emits the case cut from the buffer
   and clears it, any other character joins the buffer; name mode ends at
   `(`, which records the name; in normal mode braces move the depth, and
   name mode is entered exactly on a space or newline that ends the word
   `void` or `void*`.
   */
  lemma StepFacts(st: ScanState, c: char, file: string)
    ensures var r := Step(st, c, file);
      && (Closes(st, c) ==> r.cases == st.cases + [Emitted(st, c, file)] && r.buf == [] && r.braces == 0)
      && (!Closes(st, c) ==> r.cases == st.cases && r.buf == st.buf + [c])
      && (st.inName ==> r.braces == st.braces && r.inName == (c != '('))
      && (!st.inName ==> r.braces == st.braces + (if c == '{' then 1 else if c == '}' then -1 else 0))
      && (!st.inName ==> (r.inName <==> EndsWord(c) && IsVoid(st.token)))
      && (st.inName && c == '(' ==> r.fnName == st.token)
      && (r.fnName != st.fnName ==> st.inName && c == '(')
  {
  }

  /** A step adds the emitted case when it closes a body, and no case otherwise. */
  lemma StepEmits(st: ScanState, c: char, file: string)
    ensures Step(st, c, file).cases == st.cases + (if Closes(st, c) then [Emitted(st, c, file)] else [])
  {
    StepFacts(st, c, file);
  }

  /** The scanner run over `s` one character at a time. */
  function Run(st: ScanState, s: string, file: string): ScanState
    decreases |s|
  {
    if |s| == 0 then st else Run(Step(st, s[0], file), s[1..], file)
  }

  /** Running over `a + b` is running over `a`, then over `b`. */
  lemma {:induction false} RunSplit(st: ScanState, a: string, b: string, file: string)
    ensures Run(st, a + b, file) == Run(Run(st, a, file), b, file)
    decreases |a|
  {
    if |a| > 0 {
      assert (a + b)[0] == a[0] && (a + b)[1..] == a[1..] + b;
      RunSplit(Step(st, a[0], file), a[1..], b, file);
    } else {
      assert a + b == b;
    }
  }

  /** Running over one more character is one more step. */
  lemma RunSnoc(st: ScanState, s: string, c: char, file: string)
    ensures Run(st, s + [c], file) == Step(Run(st, s, file), c, file)
  {
    RunSplit(st, s, [c], file);
    assert [c][1..] == [];
  }

  /** A step on a character that ends the tokenizer call: the word is dropped and the token handled. */
  lemma StepStops(st: ScanState, c: char, file: string)
    requires if st.inName then c == '(' else c == '{' || c == '}' || (EndsWord(c) && IsVoid(st.token))
    ensures var t := if st.inName then FnName(st.token) else StopToken(c);
      Step(st, c, file) == Handle(st.(token := [], buf := st.buf + [c]), t, file)
  {
  }

  /** A step on a character that does not end the tokenizer call only moves the buffer and the word. */
  lemma StepContinues(st: ScanState, c: char, file: string)
    requires if st.inName then c != '(' else c != '{' && c != '}' && !(EndsWord(c) && IsVoid(st.token))
    ensures Step(st, c, file) ==
      st.(buf := st.buf + [c], token := if !st.inName && EndsWord(c) then [] else st.token + [c])
  {
  }

  /** Running over a non-empty text is a step on its first character, then a run over the rest. */
  lemma RunCons(st: ScanState, s: string, i: nat, k: nat, file: string)
    requires i < k <= |s|
    ensures Run(st, s[i..k], file) == Run(Step(st, s[i], file), s[i + 1..k], file)
  {
    assert s[i..k][0] == s[i] && s[i..k][1..] == s[i + 1..k];
  }

  /** Buffering `s[i]` and then the rest of `s[i..k]` is buffering `s[i..k]`. */
  lemma BufCons(b: string, s: string, i: nat, k: nat)
    requires i < k <= |s|
    ensures b + [s[i]] + s[i + 1..k] == b + s[i..k]
  {
    assert s[i..k] == [s[i]] + s[i + 1..k];
  }

  /** Buffering `s[i..k]` leaves `s[k - 1]` last in the buffer. */
  lemma BufEndsWith(b: string, s: string, i: nat, k: nat)
    requires i < k <= |s|
    ensures var x := b + s[i..k]; |x| > 0 && x[|x| - 1] == s[k - 1]
  {
  }

  /** A tokenizer call that ends in a token does what the character steps over the same text do. */
  lemma {:induction false} LexNormalRun(s: string, i: nat, word: string, st: ScanState, file: string)
    requires i <= |s| && word == WordBefore(s, i) && (forall k | 0 <= k < i :: !Stops(s, k))
    requires !st.inName && st.token == word
    requires LexNormal(s, i, word).Lexed?
    ensures var r := LexNormal(s, i, word); var b := st.buf + s[i..r.used];
      r.token.CurlyClose? ==> |b| > 0 && b[|b| - 1] == '}'
    ensures var r := LexNormal(s, i, word);
      Run(st, s[i..r.used], file) == Handle(st.(token := [], buf := st.buf + s[i..r.used]), r.token, file)
    decreases |s| - i
  {
    var c := s[i];
    var k := LexNormal(s, i, word).used;
    BufEndsWith(st.buf, s, i, k);
    RunCons(st, s, i, k, file);
    if c == '{' || c == '}' || (EndsWord(c) && IsVoid(word)) {
      StepStops(st, c, file);
      assert s[i + 1..k] == [];
      assert s[i..k] == [c];
    } else {
      StepContinues(st, c, file);
      var word' := if EndsWord(c) then [] else word + [c];
      assert !Stops(s, i);
      assert word' == WordBefore(s, i + 1);
      assert LexNormal(s, i, word) == LexNormal(s, i + 1, word');
      var next := st.(buf := st.buf + [c], token := word');
      LexNormalRun(s, i + 1, word', next, file);
      BufCons(st.buf, s, i, k);
      assert next.(token := [], buf := next.buf + s[i + 1..k]) == st.(token := [], buf := st.buf + s[i..k]);
    }
  }

  /** A tokenizer call that reaches end of input steps through the rest, only buffering and building the word. */
  lemma {:induction false} LexNormalRunEof(s: string, i: nat, word: string, st: ScanState, file: string)
    requires i <= |s| && word == WordBefore(s, i) && (forall k | 0 <= k < i :: !Stops(s, k))
    requires !st.inName && st.token == word
    requires LexNormal(s, i, word).Eof?
    ensures Run(st, s[i..], file).(token := []) == st.(buf := st.buf + s[i..], token := [])
    decreases |s| - i
  {
    if i < |s| {
      var c := s[i];
      RunCons(st, s, i, |s|, file);
      assert s[i..|s|] == s[i..] && s[i + 1..|s|] == s[i + 1..];
      StepContinues(st, c, file);
      var word' := if EndsWord(c) then [] else word + [c];
      var next := st.(buf := st.buf + [c], token := word');
      LexNormalRunEof(s, i + 1, word', next, file);
      BufCons(st.buf, s, i, |s|);
      assert s[i..|s|] == s[i..] && s[i + 1..|s|] == s[i + 1..];
    } else {
      assert s[i..] == [];
    }
  }

  /** A name-mode call that finds `(` does what the character steps over the same text do. */
  lemma {:induction false} LexNameRun(s: string, i: nat, word: string, st: ScanState, file: string)
    requires i <= |s| && word == s[..i] && '(' !in word
    requires st.inName && st.token == word
    requires LexName(s, i, word).Lexed?
    ensures var r := LexName(s, i, word);
      Run(st, s[i..r.used], file) == Handle(st.(token := [], buf := st.buf + s[i..r.used]), r.token, file)
    decreases |s| - i
  {
    var c := s[i];
    var k := LexName(s, i, word).used;
    RunCons(st, s, i, k, file);
    if c == '(' {
      StepStops(st, c, file);
      assert s[i + 1..k] == [];
      assert s[i..k] == [c];
    } else {
      StepContinues(st, c, file);
      var next := st.(buf := st.buf + [c], token := word + [c]);
      assert s[..i + 1] == word + [c];
      LexNameRun(s, i + 1, word + [c], next, file);
      BufCons(st.buf, s, i, k);
      assert next.(token := [], buf := next.buf + s[i + 1..k]) == st.(token := [], buf := st.buf + s[i..k]);
    }
  }

  /** A name-mode call that reaches end of input steps through the rest, only buffering and building the name. */
  lemma {:induction false} LexNameRunEof(s: string, i: nat, word: string, st: ScanState, file: string)
    requires i <= |s| && word == s[..i] && '(' !in word
    requires st.inName && st.token == word
    requires LexName(s, i, word).Eof?
    ensures Run(st, s[i..], file).(token := []) == st.(buf := st.buf + s[i..], token := [])
    decreases |s| - i
  {
    if i < |s| {
      var c := s[i];
      RunCons(st, s, i, |s|, file);
      assert s[i..|s|] == s[i..] && s[i + 1..|s|] == s[i + 1..];
      StepContinues(st, c, file);
      var next := st.(buf := st.buf + [c], token := word + [c]);
      assert s[..i + 1] == word + [c];
      LexNameRunEof(s, i + 1, word + [c], next, file);
      BufCons(st.buf, s, i, |s|);
      assert s[i..|s|] == s[i..] && s[i + 1..|s|] == s[i + 1..];
    } else {
      assert s[i..] == [];
    }
  }

  /**
   The token-driven loop of `parse_file` and the character step machine
   agree on every input: same cases, buffer, depth, mode and name.
   */
  lemma {:induction false} ParseIsRun(file: string, s: string, st: ScanState)
    requires st.token == []
    ensures ParseFrom(file, s, st) == Run(st, s, file).(token := [])
    decreases |s|
  {
    assert s[0..] == s;
    assert st.(token := []) == st;
    var r := NextToken(s, st.inName);
    assert r == if st.inName then LexName(s, 0, []) else LexNormal(s, 0, []);
    if r.Eof? {
      if st.inName {
        LexNameRunEof(s, 0, [], st, file);
      } else {
        LexNormalRunEof(s, 0, [], st, file);
      }
    } else {
      var t, k := r.token, r.used;
      if st.inName {
        LexNameRun(s, 0, [], st, file);
      } else {
        LexNormalRun(s, 0, [], st, file);
      }
      assert s[0..k] == s[..k];
      var st1 := st.(buf := st.buf + s[..k]);
      var st2 := Handle(st1, t, file);
      assert Run(st, s[..k], file) == st2;
      assert ParseFrom(file, s, st) == ParseFrom(file, s[k..], st2);
      RunSplit(st, s[..k], s[k..], file);
      assert s[..k] + s[k..] == s;
      ParseIsRun(file, s[k..], st2);
    }
  }

  /** `parse_file` on `contents` is the step machine run over it from the start state. */
  lemma ParseFileIsRun(file: string, contents: string)
    ensures ParseFile(file, contents) == Run(Start(), contents, file).cases
  {
    ParseIsRun(file, contents, Start());
  }

  /** The state after the first `k` characters of `s`. */
  function StateAt(file: string, s: string, k: nat): ScanState
    requires k <= |s|
  {
    Run(Start(), s[..k], file)
  }

  /** The character at `k` closes a function body. */
  predicate ClosesAt(file: string, s: string, k: nat)
    requires k < |s|
  {
    Closes(StateAt(file, s, k), s[k])
  }

  /** How many of the first `n` characters close a function body. */
  function CountCloses(file: string, s: string, n: nat): nat
    requires n <= |s|
  {
    if n == 0 then 0 else CountCloses(file, s, n - 1) + (if ClosesAt(file, s, n - 1) then 1 else 0)
  }

  /** The case emitted by the closing `}` at `k`. */
  function EmittedAt(file: string, s: string, k: nat): Case
    requires k < |s| && ClosesAt(file, s, k)
  {
    Emitted(StateAt(file, s, k), s[k], file)
  }

  /**
   Where the text of the next case begins after `n` characters: just past
   the last `}` among them that closed a function body, or 0 when none did.
   */
  function LastEmitEnd(file: string, s: string, n: nat): (r: nat)
    requires n <= |s|
    ensures r <= n
    ensures r > 0 ==> ClosesAt(file, s, r - 1)
    ensures forall k | r <= k < n :: !ClosesAt(file, s, k)
  {
    if n == 0 then 0 else if ClosesAt(file, s, n - 1) then n else LastEmitEnd(file, s, n - 1)
  }

  /** After `n` characters the buffer holds exactly the text read since the last case was emitted (or the file began). */
  lemma {:induction false} BufferIsRecentText(file: string, s: string, n: nat)
    requires n <= |s|
    ensures StateAt(file, s, n).buf == s[LastEmitEnd(file, s, n)..n]
  {
    if n == 0 {
      assert s[..0] == [];
    } else {
      BufferIsRecentText(file, s, n - 1);
      assert s[..n] == s[..n - 1] + [s[n - 1]];
      RunSnoc(Start(), s[..n - 1], s[n - 1], file);
      StepFacts(StateAt(file, s, n - 1), s[n - 1], file);
      if !ClosesAt(file, s, n - 1) {
        var e := LastEmitEnd(file, s, n - 1);
        assert s[e..n] == s[e..n - 1] + [s[n - 1]];
      }
    }
  }

  /**
   The case emitted at the closing `}` at `k` is cut out of the text read
   since the previous case was emitted, through that `}`: no case carries
   text that an earlier case was cut from.
   */
  lemma EmittedTextIsRecent(file: string, s: string, k: nat)
    requires k < |s| && ClosesAt(file, s, k)
    ensures Trimmable(s[LastEmitEnd(file, s, k)..k + 1])
    ensures EmittedAt(file, s, k).text == TrimFunction(s[LastEmitEnd(file, s, k)..k + 1])
    ensures EmittedAt(file, s, k).functionName == StateAt(file, s, k).fnName
  {
    var e := LastEmitEnd(file, s, k);
    var st := StateAt(file, s, k);
    BufferIsRecentText(file, s, k);
    SliceSnoc(s, e, k);
    EndsInCloseTrimmable(st.buf + [s[k]]);
  }

  /** A stretch of `s` through `k` is the stretch before `k` followed by `s[k]`. */
  lemma SliceSnoc(s: string, e: nat, k: nat)
    requires e <= k < |s|
    ensures s[e..k + 1] == s[e..k] + [s[k]]
  {
  }

  /** After `n` characters: one case per closing `}` so far, each the one emitted at its `}`. */
  lemma {:induction false} CasesAtCloses(file: string, s: string, n: nat)
    requires n <= |s|
    ensures |StateAt(file, s, n).cases| == CountCloses(file, s, n)
    ensures forall k | 0 <= k < n && ClosesAt(file, s, k) ::
      CountCloses(file, s, k) < |StateAt(file, s, n).cases| &&
      StateAt(file, s, n).cases[CountCloses(file, s, k)] == EmittedAt(file, s, k)
  {
    if n == 0 {
      assert s[..0] == [];
    } else {
      CasesAtCloses(file, s, n - 1);
      assert s[..n] == s[..n - 1] + [s[n - 1]];
      RunSnoc(Start(), s[..n - 1], s[n - 1], file);
      var prev, cur := StateAt(file, s, n - 1), StateAt(file, s, n);
      assert cur == Step(prev, s[n - 1], file);
      StepEmits(prev, s[n - 1], file);
      forall k | 0 <= k < n && ClosesAt(file, s, k)
        ensures CountCloses(file, s, k) < |cur.cases| && cur.cases[CountCloses(file, s, k)] == EmittedAt(file, s, k)
      {
        if k < n - 1 {
          assert cur.cases[..|prev.cases|] == prev.cases;
        }
      }
    }
  }

  /**
   `parse_file` emits exactly one case per `}` that brings the depth back to
   0 in normal mode (whether or not a `void` was seen), in that order, each
   named by the name last recorded before it; text left unfinished at end of
   input emits nothing.
   */
  lemma ParseFileEmitsAtCloses(file: string, contents: string)
    ensures |ParseFile(file, contents)| == CountCloses(file, contents, |contents|)
    ensures forall k | 0 <= k < |contents| && ClosesAt(file, contents, k) ::
      CountCloses(file, contents, k) < |ParseFile(file, contents)| &&
      ParseFile(file, contents)[CountCloses(file, contents, k)] == EmittedAt(file, contents, k)
  {
    ParseFileIsRun(file, contents);
    CasesAtCloses(file, contents, |contents|);
    assert contents[..|contents|] == contents;
  }

  /**
   Every case `parse_file` emits belongs to the file, and its text is a
   stretch of the file's contents that ends in the closing `}`, followed by
   one newline.
   */
  lemma ParseFileCasesAreSourceText(file: string, contents: string)
    ensures forall c | c in ParseFile(file, contents) ::
      && c.fileName == file
      && |c.text| >= 2 && c.text[|c.text| - 2] == '}' && c.text[|c.text| - 1] == '\n'
      && Occurs(c.text[..|c.text| - 1], contents)
  {
    ParseFileEmitsAtCloses(file, contents);
    var cases := ParseFile(file, contents);
    forall c | c in cases
      ensures c.fileName == file
      ensures |c.text| >= 2 && c.text[|c.text| - 2] == '}' && c.text[|c.text| - 1] == '\n'
      ensures Occurs(c.text[..|c.text| - 1], contents)
    {
      var i :| 0 <= i < |cases| && cases[i] == c;
      var k := CloseOfCase(file, contents, |contents|, i);
      EmittedIsSourceText(file, contents, k);
    }
  }

  /** The `i`-th case of the first `n` characters was emitted at some closing `}`. */
  lemma {:induction false} CloseOfCase(file: string, s: string, n: nat, i: nat) returns (k: nat)
    requires n <= |s| && i < CountCloses(file, s, n)
    ensures k < n && ClosesAt(file, s, k) && CountCloses(file, s, k) == i
  {
    if ClosesAt(file, s, n - 1) && CountCloses(file, s, n - 1) == i {
      k := n - 1;
    } else {
      k := CloseOfCase(file, s, n - 1, i);
    }
  }

  /** The case emitted at `k` belongs to the file and its text is a stretch of `s` plus a newline. */
  lemma EmittedIsSourceText(file: string, s: string, k: nat)
    requires k < |s| && ClosesAt(file, s, k)
    ensures var c := EmittedAt(file, s, k);
      && c.fileName == file
      && |c.text| >= 2 && c.text[|c.text| - 2] == '}' && c.text[|c.text| - 1] == '\n'
      && Occurs(c.text[..|c.text| - 1], s)
  {
    EmittedTextIsRecent(file, s, k);
    var start := LastEmitEnd(file, s, k);
    TrimmedTextOccurs(s[start..k + 1], s, start);
  }

  /** Trimming a stretch of `s` leaves (before its newline) a stretch of `s`. */
  lemma TrimmedTextOccurs(buf: string, s: string, start: nat)
    requires Trimmable(buf)
    requires start + |buf| <= |s| && buf == s[start..start + |buf|]
    ensures var text := TrimFunction(buf); Occurs(text[..|text| - 1], s)
  {
    var text := TrimFunction(buf);
    var a := FirstVoid(buf);
    var body := text[..|text| - 1];
    assert body == buf[a..a + |body|];
    SliceOfSlice(s, start, start + |buf|, a, a + |body|);
    assert OccursAt(body, s, start + a);
  }

  /** A slice of a slice of `s` is a slice of `s`. */
  lemma SliceOfSlice(s: string, i: nat, j: nat, a: nat, b: nat)
    requires i <= j <= |s| && a <= b <= j - i
    ensures s[i..j][a..b] == s[i + a..i + b]
  {
    assert forall x | 0 <= x < b - a :: s[i..j][a..b][x] == s[i + a + x];
  }

  /** Reading more input never removes or reorders the cases already found. */
  lemma ParseFileExtends(file: string, s: string, t: string)
    ensures ParseFile(file, s) <= ParseFile(file, s + t)
  {
    ParseFileIsRun(file, s);
    ParseFileIsRun(file, s + t);
    RunSplit(Start(), s, t, file);
    RunKeepsCases(Run(Start(), s, file), t, file);
  }

  /** The step machine only ever adds cases at the end. */
  lemma {:induction false} RunKeepsCases(st: ScanState, s: string, file: string)
    ensures st.cases <= Run(st, s, file).cases
    decreases |s|
  {
    if |s| > 0 {
      StepEmits(st, s[0], file);
      RunKeepsCases(Step(st, s[0], file), s[1..], file);
    }
  }
}
