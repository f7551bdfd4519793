/**
 The code synthesizer (`write_test_file`).

 The generated program is the fixed preamble, every case's function text in
 list order, the header of `main`, one registration block per case in list
 order (a `SliceOfToast slice_<i>` binding the function and its name, then
 `insert_toast`), and the fixed trailer. `WriteTestFile` builds it with the
 growable buffer exactly as the C does, one `append_str` per piece.
 */
module Synthesizer {
  import opened TextBuffer
  import opened Decimal
  import opened Text
  import CaseList

  type Case = CaseList.Case

  const Preamble: string := "#define TOAST_IMPLEMENTATION\n#include \"toast.h\"\n\n"
  const MainHeader: string := "int main() {\n  PackOfToast pack = plug_in_toaster(\"Toaster\");\n\n"
  const Trailer: string := "\n  toast(pack);\n  unplug_toaster(pack);\n  return 0;\n}\n"

  /** The pieces of one registration block around the index and the name. */
  const SliceDecl: string := "  SliceOfToast "
  const ToastField: string := "= {.toast = "
  const NameField: string := ", .name = \""
  const InsertCall: string := "\"};\n  insert_toast(&pack, "
  const BlockEnd: string := ");\n\n"

  /** The identifier of the `i`-th slice. */
  function SliceIdent(i: nat): string
  {
    "slice_" + NatToString(i)
  }

  /** The registration block for case `i` with function name `name`. */
  function Registration(i: nat, name: string): string
  {
    SliceDecl + SliceIdent(i) + ToastField + name + NameField + name + InsertCall + SliceIdent(i) + BlockEnd
  }

  /** The function texts of the first `n` cases, in order. */
  function Functions(cases: seq<Case>, n: nat): string
    requires n <= |cases|
  {
    if n == 0 then [] else Functions(cases, n - 1) + cases[n - 1].text
  }

  /** The registration blocks of the first `n` cases, in order. */
  function Registrations(cases: seq<Case>, n: nat): string
    requires n <= |cases|
  {
    if n == 0 then [] else Registrations(cases, n - 1) + Registration(n - 1, cases[n - 1].functionName)
  }

  /** The whole generated program for `cases`. */
  function TestProgram(cases: seq<Case>): string
  {
    Preamble + Functions(cases, |cases|) + MainHeader + Registrations(cases, |cases|) + Trailer
  }

  /** An append to a buffer built from nothing is one append of the joined text. */
  lemma AppendFresh(t: string, x: string)
    ensures AppendStr(AppendStr(Unallocated, t), x) == AppendStr(Unallocated, t + x)
  {
    AppendSplits(Unallocated, t, x);
  }

  /**
   `write_test_file`: the text it hands to `fwrite` is the generated program,
   in a buffer whose capacity is the least doubling of 1024 that holds it.
   */
  method WriteTestFile(cases: seq<Case>) returns (data: Str)
    ensures data.Allocated? && Valid(data)
    ensures data.items == TestProgram(cases)
    ensures data.cap == Grow(DefaultStrCap, |data.items|)
  {
    data := AppendStr(Unallocated, Preamble);
    data := AppendFunctions(data, Preamble, cases);
    ghost var text := Preamble + Functions(cases, |cases|);
    AppendFresh(text, MainHeader);
    data := AppendStr(data, MainHeader);
    text := text + MainHeader;
    data := AppendRegistrations(data, text, cases);
    text := text + Registrations(cases, |cases|);
    AppendFresh(text, Trailer);
    data := AppendStr(data, Trailer);
    text := text + Trailer;
    assert text == TestProgram(cases);
    FreshCapacity(text);
  }

  /** The first loop of `write_test_file`: every case's function text, in order. */
  method AppendFunctions(data: Str, ghost text: string, cases: seq<Case>) returns (r: Str)
    requires data == AppendStr(Unallocated, text)
    ensures r == AppendStr(Unallocated, text + Functions(cases, |cases|))
  {
    r := data;
    var i := 0;
    while i < |cases|
      invariant i <= |cases|
      invariant r == AppendStr(Unallocated, text + Functions(cases, i))
    {
      AppendFresh(text + Functions(cases, i), cases[i].text);
      r := AppendStr(r, cases[i].text);
      Assoc(text, Functions(cases, i), cases[i].text);
      assert Functions(cases, i + 1) == Functions(cases, i) + cases[i].text;
      i := i + 1;
    }
  }

  /** The second loop of `write_test_file`: every case's registration block, in order. */
  method AppendRegistrations(data: Str, ghost text: string, cases: seq<Case>) returns (r: Str)
    requires data == AppendStr(Unallocated, text)
    ensures r == AppendStr(Unallocated, text + Registrations(cases, |cases|))
  {
    r := data;
    var i := 0;
    while i < |cases|
      invariant i <= |cases|
      invariant r == AppendStr(Unallocated, text + Registrations(cases, i))
    {
      r := AppendRegistration(r, text + Registrations(cases, i), i, cases[i].functionName);
      Assoc(text, Registrations(cases, i), Registration(i, cases[i].functionName));
      assert Registrations(cases, i + 1) == Registrations(cases, i) + Registration(i, cases[i].functionName);
      i := i + 1;
    }
  }

  /** Concatenation regroups. */
  lemma Assoc(a: string, b: string, c: string)
    ensures a + b + c == a + (b + c)
  {
  }

  /** Nine pieces appended one after another make the block they spell. */
  lemma Join9(t: string, a: string, b: string, c: string, d: string, e: string, f: string, g: string, h: string, k: string)
    ensures t + a + b + c + d + e + f + g + h + k == t + (a + b + c + d + e + f + g + h + k)
  {
  }

  /** The nine `append_str` calls of one registration block. */
  method AppendRegistration(data: Str, ghost text: string, i: nat, name: string) returns (r: Str)
    requires data == AppendStr(Unallocated, text)
    ensures r == AppendStr(Unallocated, text + Registration(i, name))
  {
    var identifier := SliceIdent(i);
    ghost var t := text;
    r := data;
    AppendFresh(t, SliceDecl);
    r := AppendStr(r, SliceDecl);
    t := t + SliceDecl;
    AppendFresh(t, identifier);
    r := AppendStr(r, identifier);
    t := t + identifier;
    AppendFresh(t, ToastField);
    r := AppendStr(r, ToastField);
    t := t + ToastField;
    AppendFresh(t, name);
    r := AppendStr(r, name);
    t := t + name;
    AppendFresh(t, NameField);
    r := AppendStr(r, NameField);
    t := t + NameField;
    AppendFresh(t, name);
    r := AppendStr(r, name);
    t := t + name;
    AppendFresh(t, InsertCall);
    r := AppendStr(r, InsertCall);
    t := t + InsertCall;
    AppendFresh(t, identifier);
    r := AppendStr(r, identifier);
    t := t + identifier;
    AppendFresh(t, BlockEnd);
    r := AppendStr(r, BlockEnd);
    t := t + BlockEnd;
    Join9(text, SliceDecl, identifier, ToastField, name, NameField, name, InsertCall, identifier, BlockEnd);
  }

  /** The texts of the first `i` cases are the start of the texts of the first `n`. */
  lemma {:induction false} FunctionsPrefix(cases: seq<Case>, i: nat, n: nat)
    requires i <= n <= |cases|
    ensures Functions(cases, i) <= Functions(cases, n)
    decreases n - i
  {
    if i < n {
      FunctionsPrefix(cases, i, n - 1);
    }
  }

  /** The blocks of the first `i` cases are the start of the blocks of the first `n`. */
  lemma {:induction false} RegistrationsPrefix(cases: seq<Case>, i: nat, n: nat)
    requires i <= n <= |cases|
    ensures Registrations(cases, i) <= Registrations(cases, n)
    decreases n - i
  {
    if i < n {
      RegistrationsPrefix(cases, i, n - 1);
    }
  }

  /** Where case `i`'s function text starts in the program. */
  function FunctionOffset(cases: seq<Case>, i: nat): nat
    requires i <= |cases|
  {
    |Preamble| + |Functions(cases, i)|
  }

  /** Where case `i`'s registration block starts in the program. */
  function RegistrationOffset(cases: seq<Case>, i: nat): nat
    requires i <= |cases|
  {
    |Preamble| + |Functions(cases, |cases|)| + |MainHeader| + |Registrations(cases, i)|
  }

  /** The middle part of a three-part concatenation. */
  lemma MiddleOf(a: string, b: string, c: string)
    ensures |a| + |b| <= |a + b + c|
    ensures (a + b + c)[|a|..|a| + |b|] == b
  {
  }

  /** The end part of a concatenation. */
  lemma EndOf(a: string, b: string)
    ensures OccursAt(b, a + b, |a + b| - |b|)
  {
    assert (a + b)[|a|..|a| + |b|] == b;
  }

  /** A prefix of a text followed by the rest of it. */
  lemma PrefixRest(x: string, y: string)
    requires x <= y
    ensures y == x + y[|x|..]
  {
  }

  /** A piece `y` of the second of five parts: where it lies, and where the third part starts. */
  lemma PieceInSecond(a: string, b: string, c: string, d: string, e: string, x: string, y: string, z: string)
    requires b == x + y + z
    ensures OccursAt(y, a + b + c + d + e, |a| + |x|)
    ensures OccursAt(c, a + b + c + d + e, |a| + |b|)
  {
    var w := a + b + c + d + e;
    assert w == (a + x) + y + (z + (c + d + e));
    MiddleOf(a + x, y, z + (c + d + e));
    assert w == (a + b) + c + (d + e);
    MiddleOf(a + b, c, d + e);
  }

  /** A piece `y` of the fourth of five parts: where it lies, and that the fifth part ends the whole. */
  lemma PieceInFourth(a: string, b: string, c: string, d: string, e: string, x: string, y: string, z: string)
    requires d == x + y + z
    ensures OccursAt(y, a + b + c + d + e, |a| + |b| + |c| + |x|)
    ensures |a| + |b| + |c| + |x| + |y| + |z| == |a + b + c + d + e| - |e|
    ensures OccursAt(e, a + b + c + d + e, |a + b + c + d + e| - |e|)
  {
    var w := a + b + c + d + e;
    assert w == (a + b + c + x) + y + (z + e);
    MiddleOf(a + b + c + x, y, z + e);
    EndOf(a + b + c + d, e);
  }

  /**
   Every case's function text appears in the program, after the preamble,
   in list order: case `i` lies wholly before case `i + 1`, and all of them
   before `main`'s header.
   */
  lemma FunctionsInOrder(cases: seq<Case>, i: nat)
    requires i < |cases|
    ensures OccursAt(cases[i].text, TestProgram(cases), FunctionOffset(cases, i))
    ensures FunctionOffset(cases, i) + |cases[i].text| == FunctionOffset(cases, i + 1)
    ensures FunctionOffset(cases, i + 1) <= FunctionOffset(cases, |cases|)
    ensures OccursAt(MainHeader, TestProgram(cases), FunctionOffset(cases, |cases|))
  {
    var fs := Functions(cases, |cases|);
    FunctionsPrefix(cases, i + 1, |cases|);
    PrefixRest(Functions(cases, i + 1), fs);
    var u := fs[|Functions(cases, i + 1)|..];
    PieceInSecond(Preamble, fs, MainHeader, Registrations(cases, |cases|), Trailer, Functions(cases, i), cases[i].text, u);
  }

  /** Every case's registration block appears after `main`'s header, in list order, before the trailer. */
  lemma RegistrationsInOrder(cases: seq<Case>, i: nat)
    requires i < |cases|
    ensures OccursAt(Registration(i, cases[i].functionName), TestProgram(cases), RegistrationOffset(cases, i))
    ensures RegistrationOffset(cases, i) + |Registration(i, cases[i].functionName)| == RegistrationOffset(cases, i + 1)
    ensures OccursAt(Trailer, TestProgram(cases), |TestProgram(cases)| - |Trailer|)
    ensures RegistrationOffset(cases, i + 1) <= |TestProgram(cases)| - |Trailer|
  {
    var rs := Registrations(cases, |cases|);
    RegistrationsPrefix(cases, i + 1, |cases|);
    PrefixRest(Registrations(cases, i + 1), rs);
    var u := rs[|Registrations(cases, i + 1)|..];
    PieceInFourth(Preamble, Functions(cases, |cases|), MainHeader, rs, Trailer, Registrations(cases, i), Registration(i, cases[i].functionName), u);
  }

  /** The slice identifiers `slice_0`, `slice_1`, ... are pairwise distinct. */
  lemma SliceIdentsDistinct(i: nat, j: nat)
    ensures SliceIdent(i) == SliceIdent(j) <==> i == j
  {
    if SliceIdent(i) == SliceIdent(j) {
      assert NatToString(i) == SliceIdent(i)[6..] == SliceIdent(j)[6..] == NatToString(j);
      NatToStringInjective(i, j);
    }
  }

  /** The longest run of digits at the start of `s`. */
  function LeadingDigits(s: string): (r: string)
    ensures r <= s && AllDigits(r)
    ensures |r| < |s| ==> !IsDigit(s[|r|])
  {
    if |s| == 0 || !IsDigit(s[0]) then [] else [s[0]] + LeadingDigits(s[1..])
  }

  /** Digits followed by a non-digit are exactly the leading digits. */
  lemma {:induction false} LeadingDigitsOf(d: string, rest: string)
    requires AllDigits(d) && |rest| > 0 && !IsDigit(rest[0])
    ensures LeadingDigits(d + rest) == d
  {
    if |d| > 0 {
      assert (d + rest)[1..] == d[1..] + rest;
      LeadingDigitsOf(d[1..], rest);
    } else {
      assert d + rest == rest;
    }
  }

  /** The characters a block holds besides its name (twice) and its index digits (twice). */
  function FixedAfterDigits(digitCount: nat): nat
  {
    |ToastField| + |NameField| + |InsertCall| + 6 + digitCount + |BlockEnd|
  }

  /** The name inside what follows the first index: the first of its two equal-length copies. */
  function NameAfterDigits(rest: string, digitCount: nat): string
  {
    var fixed := FixedAfterDigits(digitCount);
    if |rest| < fixed then [] else rest[|ToastField|..|ToastField| + (|rest| - fixed) / 2]
  }

  /**
   Reading a registration block back: the slice index from the digits after
   `slice_`, and the function name from the length left over.
   */
  function ReadRegistration(block: string): (r: (nat, string))
  {
    var prefix := |SliceDecl| + 6;
    if |block| < prefix then (0, [])
    else
      var digits := LeadingDigits(block[prefix..]);
      (ParseDecimal(digits), NameAfterDigits(block[prefix + |digits|..], |digits|))
  }

  /** Two copies of `n` separated by fixed text: the first copy, found from the total length. */
  lemma FirstOfTwoCopies(a: string, n: string, b: string, c: string)
    ensures |a + n + b + n + c| == |a| + |b| + |c| + 2 * |n|
    ensures (a + n + b + n + c)[|a|..|a| + |n|] == n
  {
  }

  /** Digits between a prefix and a non-digit are found right after the prefix, and the rest follows them. */
  lemma DigitsAfter(p: string, d: string, tail: string)
    requires AllDigits(d) && |tail| > 0 && !IsDigit(tail[0])
    ensures LeadingDigits((p + d + tail)[|p|..]) == d
    ensures (p + d + tail)[|p| + |d|..] == tail
  {
    assert (p + d + tail)[|p|..] == d + tail;
    LeadingDigitsOf(d, tail);
  }

  /** The reader splits a block at the end of the index digits. */
  lemma ReadRegistrationSplits(d: string, tail: string)
    requires AllDigits(d) && |tail| > 0 && !IsDigit(tail[0])
    ensures ReadRegistration(SliceDecl + "slice_" + d + tail) == (ParseDecimal(d), NameAfterDigits(tail, |d|))
  {
    var p := SliceDecl + "slice_";
    assert |p| == |SliceDecl| + 6;
    DigitsAfter(p, d, tail);
  }

  /** The reader recovers the name from what follows the index digits. */
  lemma NameAfterDigitsRecovers(name: string, d: string)
    ensures NameAfterDigits(ToastField + name + NameField + name + (InsertCall + "slice_" + d + BlockEnd), |d|) == name
  {
    FirstOfTwoCopies(ToastField, name, NameField, InsertCall + "slice_" + d + BlockEnd);
  }

  /** A registration block names its slice index and its function unambiguously. */
  lemma RegistrationRoundTrip(i: nat, name: string)
    ensures ReadRegistration(Registration(i, name)) == (i, name)
  {
    var d := NatToString(i);
    var tail := ToastField + name + NameField + name + (InsertCall + "slice_" + d + BlockEnd);
    assert Registration(i, name) == SliceDecl + "slice_" + d + tail;
    ReadRegistrationSplits(d, tail);
    DecimalRoundTrip(i);
    NameAfterDigitsRecovers(name, d);
  }
}
