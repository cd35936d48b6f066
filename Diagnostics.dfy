/**
  The findings of one run (`Parsed` in adhint.js): three append-only lists of
  records, and their rendering as one-line messages (`toErrors`).
*/
module Diagnostics {
  import opened Scopes

  /** One finding: the name, the cited node's source text and line, the file. */
  datatype Record = Record(name: string, node: string, line: int, file: string)

  function RecordOf(name: string, node: Site, file: string): Record
  {
    Record(name, node.src, node.line, file)
  }

  /** The state of a `Parsed` object as a value. */
  datatype Report = Report(file: string, undefineds: seq<Record>,
                           noReferenced: seq<Record>, doubleDefined: seq<Record>)
  {
    function AddUndefined(name: string, node: Site): Report
    {
      this.(undefineds := undefineds + [RecordOf(name, node, file)])
    }

    function AddNoReferenced(name: string, node: Site): Report
    {
      this.(noReferenced := noReferenced + [RecordOf(name, node, file)])
    }

    function AddDoubleDefine(name: string, node: Site): Report
    {
      this.(doubleDefined := doubleDefined + [RecordOf(name, node, file)])
    }
  }

  function EmptyReport(file: string): Report
  {
    Report(file, [], [], [])
  }

  /** The names of a list of records, as the tests compare them. */
  function Names(rs: seq<Record>): (ns: seq<string>)
    ensures |ns| == |rs| && forall i :: 0 <= i < |rs| ==> ns[i] == rs[i].name
  {
    if rs == [] then [] else [rs[0].name] + Names(rs[1..])
  }

  const Undefined := "is undefined"
  const NoReferenced := "is no referenced"
  const AlreadyDefined := "is already defined"

  /** `"{name}" <phrase>, ("{node}", file:{file}:{line})` with the record's fields filled in. */
  function Message(r: Record, phrase: string): string
  {
    "\"" + r.name + "\" " + phrase + ", (\"" + r.node + "\", file:" + r.file + ":"
      + NumberToString(r.line) + ")"
  }

  /** The messages of a list of records, in order. */
  function Messages(rs: seq<Record>, phrase: string): (ms: seq<string>)
    ensures |ms| == |rs|
  {
    if rs == [] then [] else Messages(rs[..|rs| - 1], phrase) + [Message(rs[|rs| - 1], phrase)]
  }

  /** What `toErrors` returns for a report. */
  function Errors(rep: Report): seq<string>
  {
    Messages(rep.undefineds, Undefined) + Messages(rep.noReferenced, NoReferenced)
      + Messages(rep.doubleDefined, AlreadyDefined)
  }

  function Digit(d: nat): char
    requires d < 10
  {
    "0123456789"[d]
  }

  /** The decimal numeral of a natural number: Number::toString for integral values. */
  function NatToString(n: nat): (s: string)
    ensures |s| > 0
    ensures forall i :: 0 <= i < |s| ==> '0' <= s[i] <= '9'
    decreases n
  {
    if n < 10 then [Digit(n)] else NatToString(n / 10) + [Digit(n % 10)]
  }

  function NumberToString(n: int): string
  {
    if n < 0 then "-" + NatToString(-n) else NatToString(n)
  }

  /** A decimal numeral's value, read independently of NatToString. */
  function DigitsValue(s: string): int
  {
    if s == [] then 0 else 10 * DigitsValue(s[..|s| - 1]) + (s[|s| - 1] as int - '0' as int)
  }

  function NumberValue(s: string): int
  {
    if |s| > 0 && s[0] == '-' then -DigitsValue(s[1..]) else DigitsValue(s)
  }

  lemma {:induction false} NatToStringValue(n: nat)
    ensures DigitsValue(NatToString(n)) == n
    decreases n
  {
    if n >= 10 {
      NatToStringValue(n / 10);
      var s := NatToString(n / 10) + [Digit(n % 10)];
      assert s[..|s| - 1] == NatToString(n / 10);
    }
  }

  /** Line numbers render as numerals that read back as the same number. */
  lemma NumberToStringRoundTrip(n: int)
    ensures NumberValue(NumberToString(n)) == n
  {
    if n < 0 {
      var digits := NatToString(-n);
      NatToStringValue(-n);
      assert NumberToString(n) == "-" + digits;
      assert ("-" + digits)[1..] == digits;
      assert NumberValue("-" + digits) == -DigitsValue(digits);
    } else {
      var digits := NatToString(n);
      NatToStringValue(n);
      assert NumberToString(n) == digits;
      assert digits[0] != '-';
    }
  }

  /** One `forEach` of `toErrors`: push the message of every record, in order. */
  method PushMessages(errors: seq<string>, records: seq<Record>, phrase: string)
    returns (pushed: seq<string>)
    ensures pushed == errors + Messages(records, phrase)
  {
    pushed := errors;
    for i := 0 to |records|
      invariant pushed == errors + Messages(records[..i], phrase)
    {
      assert records[..i + 1][..i] == records[..i];
      pushed := pushed + [Message(records[i], phrase)];
    }
    assert records[..|records|] == records;
  }

  class Parsed {
    const file: string
    var undefineds: seq<Record>
    var noReferenced: seq<Record>
    var doubleDefined: seq<Record>

    function Contents(): Report
      reads this
    {
      Report(file, undefineds, noReferenced, doubleDefined)
    }

    constructor (file: string)
      ensures Contents() == EmptyReport(file)
    {
      this.file := file;
      undefineds, noReferenced, doubleDefined := [], [], [];
    }

    method AddUndefined(name: string, node: Site)
      modifies this
      ensures undefineds == old(undefineds) + [RecordOf(name, node, file)]
      ensures noReferenced == old(noReferenced) && doubleDefined == old(doubleDefined)
    {
      undefineds := undefineds + [RecordOf(name, node, file)];
    }

    method AddNoReferenced(name: string, node: Site)
      modifies this
      ensures noReferenced == old(noReferenced) + [RecordOf(name, node, file)]
      ensures undefineds == old(undefineds) && doubleDefined == old(doubleDefined)
    {
      noReferenced := noReferenced + [RecordOf(name, node, file)];
    }

    method AddDoubleDefine(name: string, node: Site)
      modifies this
      ensures doubleDefined == old(doubleDefined) + [RecordOf(name, node, file)]
      ensures undefineds == old(undefineds) && noReferenced == old(noReferenced)
    {
      doubleDefined := doubleDefined + [RecordOf(name, node, file)];
    }

    /** `toErrors`: every undefined, then every unreferenced, then every double definition. */
    method ToErrors() returns (errors: seq<string>)
      ensures errors == Errors(Contents())
    {
      errors := PushMessages([], undefineds, Undefined);
      assert errors == Messages(undefineds, Undefined);
      errors := PushMessages(errors, noReferenced, NoReferenced);
      errors := PushMessages(errors, doubleDefined, AlreadyDefined);
    }
  }
}
