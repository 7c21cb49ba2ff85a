/** JSON values and their compact text. */
module JsonText {
  import opened Wrappers

  datatype Json =
    | Null
    | Bool(b: bool)
    | Int(n: int)
    | Str(s: string)
    | Array(items: seq<Json>)
    | Object(members: seq<Member>)

  /** Members keep their order, and keys may repeat. */
  datatype Member = Member(key: string, value: Json)

  // ----- the text, as a value -----

  function DigitChar(d: int): (c: char)
    requires 0 <= d < 10
    ensures c as int == d + '0' as int
  {
    (d + '0' as int) as char
  }

  function Digits(n: nat): (r: string)
    ensures r != "" && forall i :: 0 <= i < |r| ==> '0' <= r[i] <= '9'
  {
    if n < 10 then [DigitChar(n)] else Digits(n / 10) + [DigitChar(n % 10)]
  }

  function Decimal(n: int): string {
    if n < 0 then "-" + Digits(-n) else Digits(n)
  }

  /** Line breaks, quotes and the like have short escapes; the other control
      characters are written in hexadecimal; all else stands for itself. */
  function Escape(c: char): string {
    if c == '"' then "\\\""
    else if c == '\\' then "\\\\"
    else if c == '\n' then "\\n"
    else if c == '\r' then "\\r"
    else if c == '\t' then "\\t"
    else if c as int == 0x08 then "\\b"
    else if c as int == 0x0C then "\\f"
    else if c as int < 0x20 then ['\\', 'u', '0', '0', HexChar(c as int / 16), HexChar(c as int % 16)]
    else [c]
  }

  function EscapeAll(s: string): string {
    if s == "" then "" else EscapeAll(s[..|s| - 1]) + Escape(s[|s| - 1])
  }

  function StringText(s: string): string {
    "\"" + EscapeAll(s) + "\""
  }

  function Text(j: Json): string {
    match j
    case Null => "null"
    case Bool(b) => if b then "true" else "false"
    case Int(n) => Decimal(n)
    case Str(s) => StringText(s)
    case Array(items) => "[" + ItemsText(items) + "]"
    case Object(members) => "{" + MembersText(members) + "}"
  }

  function Separator(i: nat): string {
    if i > 0 then "," else ""
  }

  /** The first item bare, every other one after a comma. */
  function ItemsText(items: seq<Json>): string {
    if items == [] then ""
    else
      var n := |items| - 1;
      ItemsText(items[..n]) + Separator(n) + Text(items[n])
  }

  function MembersText(members: seq<Member>): string {
    if members == [] then ""
    else
      var n := |members| - 1;
      MembersText(members[..n]) + Separator(n) + MemberText(members[n])
  }

  function MemberText(m: Member): string {
    StringText(m.key) + ":" + Text(m.value)
  }

  lemma ItemsStep(items: seq<Json>, i: nat)
    requires i < |items|
    ensures ItemsText(items[..i + 1]) == ItemsText(items[..i]) + Separator(i) + Text(items[i])
  {
    assert items[..i + 1][..i] == items[..i];
  }

  lemma MembersStep(members: seq<Member>, i: nat)
    requires i < |members|
    ensures MembersText(members[..i + 1]) ==
            MembersText(members[..i]) + Separator(i) + MemberText(members[i])
  {
    assert members[..i + 1][..i] == members[..i];
  }

  // ----- the writer -----

  class Buffer {
    var text: string

    constructor ()
      ensures text == ""
    {
      text := "";
    }

    method Push(s: string)
      modifies this
      ensures text == old(text) + s
    {
      text := text + s;
    }
  }

  method WriteString(s: string, out: Buffer)
    modifies out
    ensures out.text == old(out.text) + StringText(s)
  {
    out.Push("\"");
    ghost var head := out.text;
    for i := 0 to |s|
      invariant out.text == head + EscapeAll(s[..i])
    {
      out.Push(Escape(s[i]));
      EscapeStep(s, i, head);
    }
    assert s[..|s|] == s;
    out.Push("\"");
    Appended(old(out.text), "\"", EscapeAll(s), "\"");
  }

  lemma EscapeStep(s: string, i: nat, head: string)
    requires i < |s|
    ensures head + EscapeAll(s[..i + 1]) == head + EscapeAll(s[..i]) + Escape(s[i])
  {
    assert s[..i + 1][..i] == s[..i];
  }

  method WriteCompact(j: Json, out: Buffer)
    modifies out
    ensures out.text == old(out.text) + Text(j)
    decreases j
  {
    match j
    case Null => out.Push("null");
    case Bool(b) => out.Push(if b then "true" else "false");
    case Int(n) => out.Push(Decimal(n));
    case Str(s) => WriteString(s, out);
    case Array(items) =>
      out.Push("[");
      WriteItems(items, out);
      out.Push("]");
      Appended(old(out.text), "[", ItemsText(items), "]");
    case Object(members) =>
      out.Push("{");
      WriteMembers(members, out);
      out.Push("}");
      Appended(old(out.text), "{", MembersText(members), "}");
  }

  /** A comma in front of every entry but the first. */
  method WriteSeparator(i: nat, out: Buffer)
    modifies out
    ensures out.text == old(out.text) + Separator(i)
  {
    if i > 0 {
      out.Push(",");
    }
  }

  lemma Appended(head: string, a: string, b: string, c: string)
    ensures head + a + b + c == head + (a + b + c)
  {}

  method WriteItems(items: seq<Json>, out: Buffer)
    modifies out
    ensures out.text == old(out.text) + ItemsText(items)
    decreases items
  {
    ghost var head := out.text;
    for i := 0 to |items|
      invariant out.text == head + ItemsText(items[..i])
    {
      WriteSeparator(i, out);
      WriteCompact(items[i], out);
      ItemsStep(items, i);
      Appended(head, ItemsText(items[..i]), Separator(i), Text(items[i]));
    }
    assert items[..|items|] == items;
  }

  method WriteMembers(members: seq<Member>, out: Buffer)
    modifies out
    ensures out.text == old(out.text) + MembersText(members)
    decreases members
  {
    ghost var head := out.text;
    for i := 0 to |members|
      invariant out.text == head + MembersText(members[..i])
    {
      WriteSeparator(i, out);
      WriteMember(members[i], out);
      MembersStep(members, i);
      Appended(head, MembersText(members[..i]), Separator(i), MemberText(members[i]));
    }
    assert members[..|members|] == members;
  }

  method WriteMember(m: Member, out: Buffer)
    modifies out
    ensures out.text == old(out.text) + MemberText(m)
    decreases m
  {
    WriteString(m.key, out);
    out.Push(":");
    WriteCompact(m.value, out);
    Appended(old(out.text), StringText(m.key), ":", Text(m.value));
  }

  method ToCompactString(j: Json) returns (s: string)
    ensures s == Text(j)
  {
    var out := new Buffer();
    WriteCompact(j, out);
    s := out.text;
  }

  // ----- one line -----

  predicate Printable(s: string) {
    forall i :: 0 <= i < |s| ==> s[i] as int >= 0x20
  }

  lemma EscapePrintable(c: char)
    ensures Printable(Escape(c))
  {}

  lemma {:induction false} EscapeAllPrintable(s: string)
    ensures Printable(EscapeAll(s))
  {
    if s != "" {
      EscapeAllPrintable(s[..|s| - 1]);
      EscapePrintable(s[|s| - 1]);
    }
  }

  /** No control character gets into the text, so it is a single line. */
  lemma {:induction false} OneLine(j: Json)
    ensures Printable(Text(j))
    decreases j
  {
    match j
    case Null =>
    case Bool(_) =>
    case Int(n) =>
    case Str(s) => EscapeAllPrintable(s);
    case Array(items) => ItemsPrintable(items);
    case Object(members) => MembersPrintable(members);
  }

  lemma {:induction false} ItemsPrintable(items: seq<Json>)
    ensures Printable(ItemsText(items))
    decreases items
  {
    if items != [] {
      ItemsPrintable(items[..|items| - 1]);
      OneLine(items[|items| - 1]);
    }
  }

  lemma {:induction false} MembersPrintable(members: seq<Member>)
    ensures Printable(MembersText(members))
    decreases members
  {
    if members != [] {
      MembersPrintable(members[..|members| - 1]);
      MemberPrintable(members[|members| - 1]);
      PrintableConcat(MembersText(members[..|members| - 1]), Separator(|members| - 1));
      PrintableConcat(MembersText(members[..|members| - 1]) + Separator(|members| - 1),
                      MemberText(members[|members| - 1]));
    }
  }

  lemma {:induction false} MemberPrintable(m: Member)
    ensures Printable(MemberText(m))
    decreases m
  {
    EscapeAllPrintable(m.key);
    OneLine(m.value);
    PrintableConcat(StringText(m.key), ":");
    PrintableConcat(StringText(m.key) + ":", Text(m.value));
  }

  lemma PrintableConcat(a: string, b: string)
    ensures Printable(a + b) <==> Printable(a) && Printable(b)
  {
    assert forall i :: 0 <= i < |a| ==> (a + b)[i] == a[i];
    assert forall i :: 0 <= i < |b| ==> (a + b)[|a| + i] == b[i];
  }
}
