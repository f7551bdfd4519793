/**
 Small inputs run through the extractor, state by state: a `void` function,
 and braces with no `void` in front of them (still emitted, with the empty
 name the scanner starts with).
 */
module ExtractorExamples {
  import opened Extractor
  import CaseList

  /** A run over one character is one step. */
  lemma RunOne(st: ScanState, c: char, file: string)
    ensures Run(st, [c], file) == Step(st, c, file)
  {
    assert [c][1..] == [];
  }

  /** `void ` switches the scanner to name mode. */
  lemma VoidWord()
    ensures Run(Start(), "void ", "t") == ScanState(true, [], "void ", 0, [], [])
  {
    RunSplit(Start(), "void", " ", "t");
    assert "void" + " " == "void ";
    RunSplit(Start(), "vo", "id", "t");
    assert "vo" + "id" == "void";
    RunSplit(Start(), "v", "o", "t");
    RunOne(Start(), 'v', "t");
    assert Run(Start(), "v", "t") == ScanState(false, "v", "v", 0, [], []);
    RunOne(ScanState(false, "v", "v", 0, [], []), 'o', "t");
    assert Run(Start(), "vo", "t") == ScanState(false, "vo", "vo", 0, [], []);
    RunSplit(ScanState(false, "vo", "vo", 0, [], []), "i", "d", "t");
    RunOne(ScanState(false, "vo", "vo", 0, [], []), 'i', "t");
    RunOne(ScanState(false, "voi", "voi", 0, [], []), 'd', "t");
    assert Run(Start(), "void", "t") == ScanState(false, "void", "void", 0, [], []);
    RunOne(ScanState(false, "void", "void", 0, [], []), ' ', "t");
  }
  /** `f(` records the name `f` and switches back to normal mode. */
  lemma NameChunk()
    ensures Run(ScanState(true, [], "void ", 0, [], []), "f(", "t") == ScanState(false, [], "void f(", 0, "f", [])
  {
    var a := ScanState(true, [], "void ", 0, [], []);
    var b := ScanState(true, "f", "void f", 0, [], []);
    RunSplit(a, "f", "(", "t");
    assert "f" + "(" == "f(";
    RunOne(a, 'f', "t");
    RunOne(b, '(', "t");
  }

  /** `){}` opens and closes the body, emitting one case. */
  lemma BodyChunk()
    ensures Run(ScanState(false, [], "void f(", 0, "f", []), "){}", "t").cases == [CaseList.Case("t", "f", "void f(){}\n")]
  {
    var c := ScanState(false, [], "void f(", 0, "f", []);
    var d := ScanState(false, ")", "void f()", 0, "f", []);
    var e := ScanState(false, [], "void f(){", 1, "f", []);
    RunSplit(c, ")", "{}", "t");
    assert ")" + "{}" == "){}";
    RunOne(c, ')', "t");
    assert Step(c, ')', "t") == d;
    RunSplit(d, "{", "}", "t");
    assert "{" + "}" == "{}";
    RunOne(d, '{', "t");
    assert Step(d, '{', "t") == e;
    RunOne(e, '}', "t");
    assert Run(c, "){}", "t") == Run(d, "{}", "t") == Run(e, "}", "t") == Step(e, '}', "t");
    CloseStep();
  }

  /** The closing `}` emits the case cut from the whole buffer. */
  lemma CloseStep()
    ensures Step(ScanState(false, [], "void f(){", 1, "f", []), '}', "t").cases == [CaseList.Case("t", "f", "void f(){}\n")]
  {
    var e := ScanState(false, [], "void f(){", 1, "f", []);
    assert Closes(e, '}');
    assert e.buf + ['}'] == "void f(){}";
    TrimVoidF();
    assert Emitted(e, '}', "t") == CaseList.Case("t", "f", "void f(){}\n");
  }

  /** The buffer starts with `void` and ends with `}`: the text is all of it plus a newline. */
  lemma TrimVoidF()
    ensures Trimmable("void f(){}") && TrimFunction("void f(){}") == "void f(){}\n"
  {
    assert VoidAt("void f(){}", 0);
    assert FirstVoid("void f(){}") == 0;
    assert LastClose("void f(){}") == 9;
  }

  /** The step machine over `void f(){}`. */
  lemma VoidRun()
    ensures Run(Start(), "void f(){}", "t").cases == [CaseList.Case("t", "f", "void f(){}\n")]
  {
    var a := ScanState(true, [], "void ", 0, [], []);
    var c := ScanState(false, [], "void f(", 0, "f", []);
    assert "void " + "f(){}" == "void f(){}";
    RunSplit(Start(), "void ", "f(){}", "t");
    VoidWord();
    assert Run(Start(), "void f(){}", "t") == Run(a, "f(){}", "t");
    assert "f(" + "){}" == "f(){}";
    RunSplit(a, "f(", "){}", "t");
    NameChunk();
    assert Run(a, "f(){}", "t") == Run(c, "){}", "t");
    BodyChunk();
  }

  /** `void f(){}` yields one case named `f` whose text is the function and a newline. */
  lemma VoidFixture()
    ensures ParseFile("t", "void f(){}") == [CaseList.Case("t", "f", "void f(){}\n")]
  {
    ParseFileIsRun("t", "void f(){}");
    VoidRun();
  }

  /** With no `void` the text starts at the beginning of the buffer. */
  lemma TrimBareBraces()
    ensures Trimmable("x{}") && TrimFunction("x{}") == "x{}\n"
  {
    assert FirstVoidFrom("x{}", 1) == 0;
    assert FirstVoid("x{}") == 0;
    assert LastClose("x{}") == 2;
  }

  /** The step machine over `x{}`. */
  lemma BareBracesRun()
    ensures Run(Start(), "x{}", "t").cases == [CaseList.Case("t", "", "x{}\n")]
  {
    var b := ScanState(false, "x", "x", 0, [], []);
    var c := ScanState(false, [], "x{", 1, [], []);
    RunSplit(Start(), "x", "{}", "t");
    assert "x" + "{}" == "x{}";
    RunOne(Start(), 'x', "t");
    assert Step(Start(), 'x', "t") == b;
    RunSplit(b, "{", "}", "t");
    assert "{" + "}" == "{}";
    RunOne(b, '{', "t");
    assert Step(b, '{', "t") == c;
    RunOne(c, '}', "t");
    assert c.buf + ['}'] == "x{}";
    TrimBareBraces();
    assert Run(Start(), "x{}", "t") == Run(b, "{}", "t") == Run(c, "}", "t") == Step(c, '}', "t");
  }

  /** Braces close a case even without a `void` before them; the name is the scanner's initial empty one. */
  lemma BareBracesFixture()
    ensures ParseFile("t", "x{}") == [CaseList.Case("t", "", "x{}\n")]
  {
    ParseFileIsRun("t", "x{}");
    BareBracesRun();
  }
}
