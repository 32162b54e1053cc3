/** precheck.go: the command-line checks run before any conversion. Every
    failing check calls the fatal logger with its items; the checks are
    modelled as the list of diagnostics they raise, in the order they run. In
    the program the first one ends the process; with the logger replaced, as
    the tests do, every one of them is reported. */
module Precheck {
  import opened Types

  /** `validEncodings` of main.go:22, in its order. */
  const ValidEncodings: seq<Encoding> := [UTF8, UTF16, UTF16BE, UTF16LE, UTF32, UTF32LE, UTF32BE]

  /** Every encoding identifier is in the list. */
  lemma AllListed(e: Encoding)
    ensures e in ValidEncodings
  {
  }

  /** The linear search of `isValidEncoding` over `list`. */
  function Listed(list: seq<Encoding>, name: string): (r: bool)
    ensures r <==> exists k :: 0 <= k < |list| && list[k].Name() == name
  {
    if |list| == 0 then false
    else if list[0].Name() == name then true
    else
      assert forall k :: 1 <= k < |list| ==> list[k] == list[1..][k - 1];
      Listed(list[1..], name)
  }

  /** `isValidEncoding`: true iff `name` is listed in `validEncodings`. */
  function IsValidEncoding(name: string): (r: bool)
    ensures r <==> exists e: Encoding :: e.Name() == name
  {
    var r := Listed(ValidEncodings, name);
    assert r ==> exists e: Encoding :: e.Name() == name;
    assert (exists e: Encoding :: e.Name() == name) ==> r by {
      if e: Encoding :| e.Name() == name {
        AllListed(e);
        var k :| 0 <= k < |ValidEncodings| && ValidEncodings[k] == e;
      }
    }
    r
  }

  /** The list search agrees with looking the identifier up by name. */
  lemma ValidIffNamed(name: string)
    ensures IsValidEncoding(name) <==> EncodingNamed(name).Some?
  {
  }

  /** The empty name is not an encoding, so the `len(...) == 0` tests are
      subsumed by the list search. */
  lemma EmptyNameInvalid()
    ensures !IsValidEncoding("")
  {
  }

  /** The reasons `RunPrechecks` stops the program. */
  datatype Diagnostic =
    | NoSourceFile
    | InvalidSourceEncoding
    | InvalidTargetEncoding
    | SameEncoding(fromEncoding: string, toEncoding: string)
  {
    /** The items handed to the fatal logger. */
    function Items(): seq<string> {
      match this
      case NoSourceFile =>
        ["no source file path mentioned. use '-s filepath/filename' to mention source file path"]
      case InvalidSourceEncoding =>
        ["no (or) invalid source encoding provided. use '-from utf-8/utf-16/utf-32'"]
      case InvalidTargetEncoding =>
        ["no (or) invalid target encoding provided. use '-to utf-8/utf-16/utf-32'"]
      case SameEncoding(fromEncoding, toEncoding) =>
        ["incorrect source/target encoding provided. cannot encode", fromEncoding, "again to", toEncoding]
    }

    /** Position of the check that raises it. */
    function Rank(): nat {
      match this
      case NoSourceFile => 0
      case InvalidSourceEncoding => 1
      case InvalidTargetEncoding => 2
      case SameEncoding(_, _) => 3
    }
  }

  /** Items joined with single spaces, the way the tests' logger stand-in
      builds the message. */
  function Join(items: seq<string>): (r: string)
    ensures |items| == 1 ==> r == items[0]
  {
    if |items| == 0 then ""
    else if |items| == 1 then items[0]
    else items[0] + " " + Join(items[1..])
  }

  /** `d` in front of `rest` when its check fails. */
  function Raise(fails: bool, d: Diagnostic, rest: seq<Diagnostic>): seq<Diagnostic> {
    if fails then [d] + rest else rest
  }

  /** The four checks of `RunPrechecks`, in order: a source file path is
      given, the source and the target encodings are non-empty and listed,
      and they differ. The diagnostics come out in the order of the checks. */
  function RunPrechecks(sourceFile: string, fromEncoding: string, toEncoding: string): (r: seq<Diagnostic>)
    ensures forall i, j :: 0 <= i < j < |r| ==> r[i].Rank() < r[j].Rank()
  {
    Raise(|sourceFile| == 0, NoSourceFile,
      Raise(|fromEncoding| == 0 || !IsValidEncoding(fromEncoding), InvalidSourceEncoding,
        Raise(|toEncoding| == 0 || !IsValidEncoding(toEncoding), InvalidTargetEncoding,
          Raise(fromEncoding == toEncoding, SameEncoding(fromEncoding, toEncoding), []))))
  }

  /** Each diagnostic is raised exactly when its check fails; the comparison
      diagnostic names the two encodings. */
  lemma PrecheckDiagnostics(sourceFile: string, fromEncoding: string, toEncoding: string)
    ensures var r := RunPrechecks(sourceFile, fromEncoding, toEncoding);
      && (NoSourceFile in r <==> |sourceFile| == 0)
      && (InvalidSourceEncoding in r <==> !IsValidEncoding(fromEncoding))
      && (InvalidTargetEncoding in r <==> !IsValidEncoding(toEncoding))
      && (SameEncoding(fromEncoding, toEncoding) in r <==> fromEncoding == toEncoding)
      && (forall d :: d in r && d.SameEncoding? ==> d == SameEncoding(fromEncoding, toEncoding))
  {
    var fromFails := |fromEncoding| == 0 || !IsValidEncoding(fromEncoding);
    var toFails := |toEncoding| == 0 || !IsValidEncoding(toEncoding);
    EmptyNameInvalid();
    assert fromFails == !IsValidEncoding(fromEncoding);
    assert toFails == !IsValidEncoding(toEncoding);
    RaiseMembers(|sourceFile| == 0, fromFails, toFails, fromEncoding == toEncoding,
                 SameEncoding(fromEncoding, toEncoding));
  }

  /** Membership in the four-check chain, for any outcomes of the checks. */
  lemma RaiseMembers(a: bool, b: bool, c: bool, d: bool, same: Diagnostic)
    requires same.SameEncoding?
    ensures var r := Raise(a, NoSourceFile, Raise(b, InvalidSourceEncoding,
                      Raise(c, InvalidTargetEncoding, Raise(d, same, []))));
      && (NoSourceFile in r <==> a)
      && (InvalidSourceEncoding in r <==> b)
      && (InvalidTargetEncoding in r <==> c)
      && (same in r <==> d)
      && (forall x :: x in r && x.SameEncoding? ==> x == same)
  {
  }

  /** The head of the four-check chain is the first check that fails. */
  lemma RaiseFirst(a: bool, b: bool, c: bool, d: bool, same: Diagnostic)
    ensures var r := Raise(a, NoSourceFile, Raise(b, InvalidSourceEncoding,
                      Raise(c, InvalidTargetEncoding, Raise(d, same, []))));
      && (a ==> r != [] && r[0] == NoSourceFile)
      && (!a && b ==> r != [] && r[0] == InvalidSourceEncoding)
      && (!a && !b && c ==> r != [] && r[0] == InvalidTargetEncoding)
      && (!a && !b && !c && d ==> r != [] && r[0] == same)
  {
  }

  /** The checks pass exactly when a source file is named and the source and
      target are two different known encodings. */
  lemma PrechecksPass(sourceFile: string, fromEncoding: string, toEncoding: string)
    ensures RunPrechecks(sourceFile, fromEncoding, toEncoding) == [] <==>
      && |sourceFile| > 0
      && EncodingNamed(fromEncoding).Some?
      && EncodingNamed(toEncoding).Some?
      && EncodingNamed(fromEncoding) != EncodingNamed(toEncoding)
  {
    var r := RunPrechecks(sourceFile, fromEncoding, toEncoding);
    PrecheckDiagnostics(sourceFile, fromEncoding, toEncoding);
    ValidIffNamed(fromEncoding);
    ValidIffNamed(toEncoding);
    if EncodingNamed(fromEncoding).Some? && EncodingNamed(toEncoding).Some? {
      NameInjective(EncodingNamed(fromEncoding).value, EncodingNamed(toEncoding).value);
    }
    if r != [] {
      assert r[0] in r;
    }
  }

  /** What the program reports: the items of the first failing check, in the
      order the checks run, which end it; nothing when every check passes. */
  function FirstFatal(sourceFile: string, fromEncoding: string, toEncoding: string): (r: Option<seq<string>>)
    ensures r.None? <==> RunPrechecks(sourceFile, fromEncoding, toEncoding) == []
    ensures |sourceFile| == 0 ==> r == Some(NoSourceFile.Items())
    ensures |sourceFile| > 0 && !IsValidEncoding(fromEncoding) ==> r == Some(InvalidSourceEncoding.Items())
    ensures |sourceFile| > 0 && IsValidEncoding(fromEncoding) && !IsValidEncoding(toEncoding)
            ==> r == Some(InvalidTargetEncoding.Items())
    ensures |sourceFile| > 0 && IsValidEncoding(fromEncoding) && IsValidEncoding(toEncoding)
            && fromEncoding == toEncoding
            ==> r == Some(SameEncoding(fromEncoding, toEncoding).Items())
  {
    EmptyNameInvalid();
    RaiseFirst(|sourceFile| == 0, |fromEncoding| == 0 || !IsValidEncoding(fromEncoding),
               |toEncoding| == 0 || !IsValidEncoding(toEncoding), fromEncoding == toEncoding,
               SameEncoding(fromEncoding, toEncoding));
    var diagnostics := RunPrechecks(sourceFile, fromEncoding, toEncoding);
    if diagnostics == [] then None else Some(diagnostics[0].Items())
  }

  /** The message for converting an encoding into itself, as joined by the
      tests: the encoding named twice inside the fixed text. */
  lemma SameEncodingMessage(fromEncoding: string, toEncoding: string)
    ensures Join(SameEncoding(fromEncoding, toEncoding).Items())
         == "incorrect source/target encoding provided. cannot encode " + fromEncoding + " again to " + toEncoding
  {
    var head := "incorrect source/target encoding provided. cannot encode";
    var items := SameEncoding(fromEncoding, toEncoding).Items();
    assert items[1..][1..][1..] == [toEncoding];
    assert Join(items[1..][1..]) == "again to" + " " + toEncoding;
    assert Join(items[1..]) == fromEncoding + " " + ("again to" + " " + toEncoding);
    assert Join(items) == head + " " + (fromEncoding + " " + ("again to" + " " + toEncoding));
  }

  /** The four scenarios of precheck_test.go: each reports its own message,
      the only failing check in it. */
  lemma PrecheckScenarios()
    ensures RunPrechecks("", "utf-32", "utf-8") == [NoSourceFile]
    ensures RunPrechecks("file", "", "utf-8") == [InvalidSourceEncoding]
    ensures RunPrechecks("file", "utf-32", "") == [InvalidTargetEncoding]
    ensures RunPrechecks("file", "utf-32", "utf-32") == [SameEncoding("utf-32", "utf-32")]
  {
    Known(UTF32);
    Known(UTF8);
    EmptyNameInvalid();
    DistinctNames();
    ScenarioChain("", "utf-32", "utf-8");
    ScenarioChain("file", "", "utf-8");
    ScenarioChain("file", "utf-32", "");
    ScenarioChain("file", "utf-32", "utf-32");
  }

  /** `RunPrechecks` as the chain of its four checks. */
  lemma ScenarioChain(sourceFile: string, fromEncoding: string, toEncoding: string)
    ensures RunPrechecks(sourceFile, fromEncoding, toEncoding)
         == Raise(|sourceFile| == 0, NoSourceFile,
              Raise(!IsValidEncoding(fromEncoding), InvalidSourceEncoding,
                Raise(!IsValidEncoding(toEncoding), InvalidTargetEncoding,
                  Raise(fromEncoding == toEncoding, SameEncoding(fromEncoding, toEncoding), []))))
  {
    EmptyNameInvalid();
  }

  /** The two names of the scenarios differ. */
  lemma DistinctNames()
    ensures "utf-32" != "utf-8" && "utf-32" != "" && "utf-8" != ""
  {
    assert "utf-32"[4] != "utf-8"[4];
  }

  /** Every identifier's own name passes the list search. */
  lemma Known(e: Encoding)
    ensures IsValidEncoding(e.Name())
  {
  }
}
