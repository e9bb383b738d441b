/** The anchor log on disk: one JSON object a line (packages/store/src/audit-anchor.ts). */
module AnchorFile {
  import opened Prelude
  import opened AuditChain
  import opened AuditAnchor
  import opened AnchorVerdict
  import Json

  function RecordValue(a: AnchorRecord): Json.Value {
    Json.Obj(AnchorBodyValue(a.body).fields + [Json.Field("anchorHash", Json.Str(a.anchorHash))])
  }

  /** The text one append adds to the file. */
  function Line(a: AnchorRecord): string {
    Json.Print(RecordValue(a)) + "\n"
  }

  function ToNullable(v: Json.Value): Option<Option<string>> {
    match v
    case Null => Some(None)
    case Str(s) => Some(Some(s))
    case _ => None
  }

  /** The record a parsed object denotes; None when a field is absent or of another type. */
  function ToRecord(v: Json.Value): Option<AnchorRecord> {
    if !v.Obj? then None
    else
      match (Json.Get(v.fields, "schemaVersion"), Json.Get(v.fields, "anchoredAt"), Json.Get(v.fields, "tenantId"),
             Json.Get(v.fields, "chainedRows"), Json.Get(v.fields, "chainHead"), Json.Get(v.fields, "prevAnchorHash"),
             Json.Get(v.fields, "anchorHash"))
      case (Some(Num(version)), Some(Str(at)), Some(Str(tenant)), Some(Num(rows)), Some(Str(head)), Some(prev), Some(Str(hash))) =>
        (match ToNullable(prev)
         case None => None
         case Some(p) => Some(AnchorRecord(AnchorBody(version, at, tenant, rows, head, p), hash)))
      case _ => None
  }

  function Lines(text: string): (lines: seq<string>)
    ensures |lines| > 0
  {
    if |text| == 0 then [""]
    else if text[0] == '\n' then [""] + Lines(text[1..])
    else
      var rest := Lines(text[1..]);
      [[text[0]] + rest[0]] + rest[1..]
  }

  predicate Blank(line: string) {
    forall c :: c in line ==> c in {' ', '\t', '\n', '\r'}
  }

  /** Every line that is not blank, parsed; None stands for a line that does not parse. */
  function ParseLines(lines: seq<string>): seq<Option<AnchorRecord>> {
    if |lines| == 0 then []
    else if Blank(lines[0]) then ParseLines(lines[1..])
    else
      [match Json.Parse(lines[0]) case None => None case Some(v) => ToRecord(v)] + ParseLines(lines[1..])
  }

  function ParseAnchorLog(text: string): seq<Option<AnchorRecord>> {
    ParseLines(Lines(text))
  }

  /** The file after the given appends. */
  function FileText(log: seq<AnchorRecord>): string {
    if |log| == 0 then "" else Line(log[0]) + FileText(log[1..])
  }

  lemma ToRecordOfValue(a: AnchorRecord)
    ensures ToRecord(RecordValue(a)) == Some(a)
  {
    hide Json.Get;
    var f := RecordValue(a).fields;
    Json.GetAt(f, 0);
    Json.GetAt(f, 1);
    Json.GetAt(f, 2);
    Json.GetAt(f, 3);
    Json.GetAt(f, 4);
    Json.GetAt(f, 5);
    Json.GetAt(f, 6);
    assert ToNullable(Nullable(a.body.prevAnchorHash)) == Some(a.body.prevAnchorHash);
  }

  /** A text without line breaks, then a line break: the text is the first line. */
  lemma {:induction false} FirstLine(line: string, rest: string)
    requires '\n' !in line
    ensures Lines(line + ("\n" + rest)) == [line] + Lines(rest)
  {
    var t := line + ("\n" + rest);
    if |line| == 0 {
      assert t == "\n" + rest && t[1..] == rest;
    } else {
      assert t[0] == line[0] && t[1..] == line[1..] + ("\n" + rest);
      FirstLine(line[1..], rest);
      assert [line[0]] + line[1..] == line;
    }
  }

  lemma FirstLineParses(text: string, a: AnchorRecord, rest: string)
    requires Json.OneLine(text) && '{' in text && Json.Parse(text) == Some(RecordValue(a))
    ensures ParseAnchorLog(text + ("\n" + rest)) == [Some(a)] + ParseAnchorLog(rest)
  {
    assert '\n' !in text;
    FirstLine(text, rest);
    ToRecordOfValue(a);
    assert ([text] + Lines(rest))[1..] == Lines(rest);
  }

  lemma PrintsABrace(fields: seq<Json.Field>)
    ensures '{' in Json.Print(Json.Obj(fields))
  {
    assert Json.Print(Json.Obj(fields))[0] == '{';
  }

  lemma LineParses(a: AnchorRecord, rest: string)
    ensures ParseAnchorLog(Line(a) + rest) == [Some(a)] + ParseAnchorLog(rest)
  {
    var text := Json.Print(RecordValue(a));
    Json.PrintOneLine(RecordValue(a));
    Json.ParsePrint(RecordValue(a));
    PrintsABrace(RecordValue(a).fields);
    FirstLineParses(text, a, rest);
    Json.RegroupThree(text, "\n", rest);
  }

  /** What was appended is what is read back. */
  lemma {:induction false} FileRoundTrip(log: seq<AnchorRecord>)
    ensures |ParseAnchorLog(FileText(log))| == |log|
    ensures forall i: nat :: i < |log| ==> ParseAnchorLog(FileText(log))[i] == Some(log[i])
  {
    if |log| == 0 {
      assert Lines("") == [""];
    } else {
      FileRoundTrip(log[1..]);
      LineParses(log[0], FileText(log[1..]));
    }
  }

  lemma RecordMembersAre(a: AnchorRecord)
    ensures Json.Members(RecordValue(a).fields) == AnchorMembers(a.body) + [("anchorHash", Json.Quote(a.anchorHash))]
  {
    AnchorMembersAre(a.body);
    var fields := AnchorBodyValue(a.body).fields;
    assert forall i :: 0 <= i < |fields| ==> RecordValue(a).fields[i] == fields[i] && Json.Members(fields)[i] == AnchorMembers(a.body)[i];
  }

  /** A line of the file, key by key: the body's members, then the record's hash, then a line feed. */
  lemma LineSpelledOut(a: AnchorRecord)
    ensures Line(a) == Json.ObjectText(AnchorMembers(a.body) + [("anchorHash", Json.Quote(a.anchorHash))]) + [10 as char]
  {
    hide AnchorMembers;
    RecordMembersAre(a);
    Json.PrintIsObjectText(RecordValue(a).fields);
  }

  /** Lines of white space are passed over. */
  lemma BlankLinesSkipped(line: string, rest: string)
    requires forall c :: c in line ==> c in {' ', '\t', '\r'}
    ensures ParseAnchorLog(line + ("\n" + rest)) == ParseAnchorLog(rest)
  {
    FirstLine(line, rest);
    assert ([line] + Lines(rest))[1..] == Lines(rest);
  }
}
