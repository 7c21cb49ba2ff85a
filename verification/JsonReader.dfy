/** Reading compact JSON back. */
module JsonReader {
  import opened Wrappers
  import opened JsonText

  type Read<T> = Option<(T, string)>

  // ----- strings, by section 7 of RFC 8259 -----

  function HexValue(c: char): (r: Option<nat>)
    ensures r.Some? ==> r.value < 16
  {
    if '0' <= c <= '9' then Some(c as int - '0' as int)
    else if 'a' <= c <= 'f' then Some(c as int - 'a' as int + 10)
    else if 'A' <= c <= 'F' then Some(c as int - 'A' as int + 10)
    else None
  }

  /** The code unit that four hexadecimal digits denote. */
  function CodeUnit(s: string): (r: Option<nat>)
    ensures r.Some? ==> |s| >= 4 && r.value < 0x10000
  {
    if |s| < 4 then None
    else
      var a, b, c, d := HexValue(s[0]), HexValue(s[1]), HexValue(s[2]), HexValue(s[3]);
      if a.None? || b.None? || c.None? || d.None? then None
      else Some(4096 * a.value + 256 * b.value + 16 * c.value + d.value)
  }

  /** A character outside the basic plane is written as two code units. */
  function LowHalf(s: string): (r: Option<nat>)
    ensures r.Some? ==> |s| >= 6 && 0xDC00 <= r.value <= 0xDFFF
  {
    if |s| < 2 || s[0] != '\\' || s[1] != 'u' then None
    else
      var u := CodeUnit(s[2..]);
      if u.Some? && 0xDC00 <= u.value <= 0xDFFF then u else None
  }

  function ReadUnicode(s: string): (r: Read<char>)
    ensures r.Some? ==> |r.value.1| < |s|
  {
    var u := CodeUnit(s);
    if u.None? then None
    else if u.value < 0xD800 || u.value > 0xDFFF then Some((u.value as char, s[4..]))
    else
      var low := LowHalf(s[4..]);
      if u.value >= 0xDC00 || low.None? then None
      else Some(((0x10000 + 1024 * (u.value - 0xD800) + (low.value - 0xDC00)) as char, s[10..]))
  }

  function ReadEscaped(s: string): (r: Read<char>)
    ensures r.Some? ==> |r.value.1| < |s|
  {
    if s == "" then None
    else if s[0] == '"' || s[0] == '\\' || s[0] == '/' then Some((s[0], s[1..]))
    else if s[0] == 'b' then Some((0x08 as char, s[1..]))
    else if s[0] == 'f' then Some((0x0C as char, s[1..]))
    else if s[0] == 'n' then Some(('\n', s[1..]))
    else if s[0] == 'r' then Some(('\r', s[1..]))
    else if s[0] == 't' then Some(('\t', s[1..]))
    else if s[0] == 'u' then ReadUnicode(s[1..])
    else None
  }

  function ReadChar(s: string): (r: Read<char>)
    ensures r.Some? ==> |r.value.1| < |s|
  {
    if s == "" || s[0] as int < 0x20 then None
    else if s[0] == '\\' then ReadEscaped(s[1..])
    else Some((s[0], s[1..]))
  }

  /** The rest of a string after its opening quote; `acc` is what came before. */
  function ReadString(s: string, acc: string): (r: Read<string>)
    ensures r.Some? ==> |r.value.1| < |s|
    decreases |s|
  {
    if s == "" then None
    else if s[0] == '"' then Some((acc, s[1..]))
    else
      var c := ReadChar(s);
      if c.None? then None else ReadString(c.value.1, acc + [c.value.0])
  }

  // ----- numbers -----

  predicate DigitFirst(s: string) {
    s != "" && '0' <= s[0] <= '9'
  }

  function ReadDigits(s: string, acc: nat): (r: (nat, string))
    ensures |r.1| <= |s|
    decreases |s|
  {
    if DigitFirst(s) then ReadDigits(s[1..], 10 * acc + (s[0] as int - '0' as int)) else (acc, s)
  }

  function ReadInt(s: string): (r: Read<int>)
    ensures r.Some? ==> |r.value.1| < |s|
  {
    if s != "" && s[0] == '-' then
      if !DigitFirst(s[1..]) then None
      else
        var (n, rest) := ReadDigits(s[2..], s[1] as int - '0' as int);
        var m: int := -(n as int);
        Some((m, rest))
    else if !DigitFirst(s) then None
    else
      var (n, rest) := ReadDigits(s[1..], s[0] as int - '0' as int);
      Some((n, rest))
  }

  // ----- values -----

  predicate Starts(s: string, p: string) {
    |p| <= |s| && s[..|p|] == p
  }

  function ReadValue(s: string): (r: Read<Json>)
    ensures r.Some? ==> |r.value.1| < |s|
    decreases |s|, 0
  {
    if s == "" then None
    else if s[0] == 'n' then if Starts(s, "null") then Some((Null, s[4..])) else None
    else if s[0] == 't' then if Starts(s, "true") then Some((Bool(true), s[4..])) else None
    else if s[0] == 'f' then if Starts(s, "false") then Some((Bool(false), s[5..])) else None
    else if s[0] == '"' then
      var r := ReadString(s[1..], "");
      if r.None? then None else Some((Str(r.value.0), r.value.1))
    else if s[0] == '[' then
      if Starts(s, "[]") then Some((Array([]), s[2..]))
      else
        var r := ReadItems(s[1..], []);
        if r.None? then None else Some((Array(r.value.0), r.value.1))
    else if s[0] == '{' then
      if Starts(s, "{}") then Some((Object([]), s[2..]))
      else
        var r := ReadMembers(s[1..], []);
        if r.None? then None else Some((Object(r.value.0), r.value.1))
    else
      var r := ReadInt(s);
      if r.None? then None else Some((Int(r.value.0), r.value.1))
  }

  /** Items up to the closing bracket; `acc` is what came before. */
  function ReadItems(s: string, acc: seq<Json>): (r: Read<seq<Json>>)
    ensures r.Some? ==> |r.value.1| < |s|
    decreases |s|, 1
  {
    var v := ReadValue(s);
    if v.None? || v.value.1 == "" then None
    else if v.value.1[0] == ',' then ReadItems(v.value.1[1..], acc + [v.value.0])
    else if v.value.1[0] == ']' then Some((acc + [v.value.0], v.value.1[1..]))
    else None
  }

  function ReadMember(s: string): (r: Read<Member>)
    ensures r.Some? ==> |r.value.1| < |s|
    decreases |s|, 0
  {
    if s == "" || s[0] != '"' then None
    else
      var k := ReadString(s[1..], "");
      if k.None? || k.value.1 == "" || k.value.1[0] != ':' then None
      else
        var v := ReadValue(k.value.1[1..]);
        if v.None? then None else Some((Member(k.value.0, v.value.0), v.value.1))
  }

  function ReadMembers(s: string, acc: seq<Member>): (r: Read<seq<Member>>)
    ensures r.Some? ==> |r.value.1| < |s|
    decreases |s|, 1
  {
    var m := ReadMember(s);
    if m.None? || m.value.1 == "" then None
    else if m.value.1[0] == ',' then ReadMembers(m.value.1[1..], acc + [m.value.0])
    else if m.value.1[0] == '}' then Some((acc + [m.value.0], m.value.1[1..]))
    else None
  }
}
