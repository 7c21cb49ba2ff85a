/** Compact JSON is uniquely decodable. */
module JsonRoundTrip {
  import opened Wrappers
  import opened JsonText
  import opened JsonReader

  // ----- strings -----

  lemma HexRead(d: int)
    requires 0 <= d < 16
    ensures HexValue(HexChar(d)) == Some(d)
  {}

  lemma ControlRead(c: char, rest: string)
    requires c as int < 0x20
    ensures ReadUnicode(['0', '0', HexChar(c as int / 16), HexChar(c as int % 16)] + rest) == Some((c, rest))
  {
    var s := ['0', '0', HexChar(c as int / 16), HexChar(c as int % 16)] + rest;
    HexRead(c as int / 16);
    HexRead(c as int % 16);
    assert s[4..] == rest;
    assert CodeUnit(s) == Some(c as int);
  }

  /** No shorter text is read as the character. */
  lemma ShortestEscape(c: char, s: string)
    requires s != "" && s[0] != '"' && ReadChar(s) == Some((c, ""))
    ensures |Escape(c)| <= |s|
  {}

  /** Whatever a character was written as, it is read as itself. */
  lemma CharRead(c: char, rest: string)
    ensures ReadChar(Escape(c) + rest) == Some((c, rest))
    ensures Escape(c)[0] != '"'
  {
    var s := Escape(c) + rest;
    assert s[1..] == Escape(c)[1..] + rest;
    if |Escape(c)| == 6 {
      ControlRead(c, rest);
      assert s[1..][1..] == ['0', '0', HexChar(c as int / 16), HexChar(c as int % 16)] + rest;
    } else if |Escape(c)| == 2 {
      assert s[1..][1..] == rest;
    } else {
      assert s[1..] == rest;
    }
  }

  lemma Rest<T>(a: T, b: seq<T>)
    ensures ([a] + b)[0] == a && ([a] + b)[1..] == b
  {}

  lemma NothingMore<T>(a: seq<T>)
    ensures a + [] == a && [] + a == a
  {}

  lemma {:induction false} CharsRead(t: string, rest: string, acc: string)
    ensures ReadString(EscapeAll(t) + rest, acc) == ReadString(rest, acc + t)
    decreases |t|
  {
    if t == "" {
      NothingMore(rest);
      NothingMore(acc);
    } else {
      var n := |t| - 1;
      var init, c := t[..n], t[n];
      Assoc(EscapeAll(init), Escape(c), rest);
      CharsRead(init, Escape(c) + rest, acc);
      OneCharRead(c, rest, acc + init);
      Assoc(acc, init, [c]);
      assert init + [c] == t;
    }
  }

  lemma OneCharRead(c: char, rest: string, acc: string)
    ensures ReadString(Escape(c) + rest, acc) == ReadString(rest, acc + [c])
  {
    CharRead(c, rest);
    assert (Escape(c) + rest)[0] == Escape(c)[0];
  }

  lemma StringRead(t: string, rest: string)
    ensures ReadString(EscapeAll(t) + ("\"" + rest), "") == Some((t, rest))
    ensures StringText(t) + rest == "\"" + (EscapeAll(t) + ("\"" + rest))
  {
    CharsRead(t, "\"" + rest, "");
    NothingMore(t);
    Rest('"', rest);
    Assoc("\"", EscapeAll(t), "\"");
    Assoc("\"", EscapeAll(t) + "\"", rest);
    Assoc(EscapeAll(t), "\"", rest);
  }

  // ----- numbers -----

  lemma {:induction false} DigitsRead(n: nat, rest: string, acc: nat)
    requires acc == 0
    ensures ReadDigits(Digits(n) + rest, acc) == ReadDigits(rest, n)
    decreases n
  {
    var s := Digits(n) + rest;
    if n < 10 {
      assert s[1..] == rest;
    } else {
      var d := [DigitChar(n % 10)];
      assert s == Digits(n / 10) + (d + rest);
      DigitsRead(n / 10, d + rest, acc);
      assert (d + rest)[1..] == rest;
    }
  }

  /** What follows the value does not continue it: only a number can be
      continued, and only by a digit. */
  predicate Delimited(j: Json, rest: string) {
    j.Int? ==> !DigitFirst(rest)
  }

  lemma NaturalRead(n: nat, rest: string)
    requires !DigitFirst(rest)
    ensures var s := Digits(n) + rest;
            DigitFirst(s) && ReadDigits(s[1..], s[0] as int - '0' as int) == (n, rest)
  {
    DigitsRead(n, rest, 0);
    OneDigit(Digits(n) + rest);
  }

  lemma OneDigit(s: string)
    requires DigitFirst(s)
    ensures ReadDigits(s[1..], s[0] as int - '0' as int) == ReadDigits(s, 0)
  {}

  lemma IntRead(n: int, rest: string)
    requires !DigitFirst(rest)
    ensures ReadInt(Decimal(n) + rest) == Some((n, rest))
    ensures Decimal(n)[0] == '-' || '0' <= Decimal(n)[0] <= '9'
  {
    if n < 0 {
      NegativeRead(-n, rest);
    } else {
      NaturalRead(n, rest);
    }
  }

  lemma NegativeRead(n: nat, rest: string)
    requires !DigitFirst(rest)
    ensures ReadInt("-" + Digits(n) + rest) == Some((-(n as int), rest))
  {
    NaturalRead(n, rest);
    var s := "-" + Digits(n) + rest;
    assert s[1..] == Digits(n) + rest && s[2..] == s[1..][1..];
  }

  // ----- values -----

  lemma {:induction false} FirstChar(j: Json)
    ensures Text(j) != "" && Text(j)[0] != ']'
  {
    if j.Int? {
      IntRead(j.n, "");
    }
  }

  lemma {:induction false} ItemsStart(items: seq<Json>)
    requires items != []
    ensures ItemsText(items) != "" && ItemsText(items)[0] != ']'
  {
    FirstChar(items[|items| - 1]);
    if |items| > 1 {
      ItemsStart(items[..|items| - 1]);
    }
  }

  lemma {:induction false} MembersStart(members: seq<Member>)
    requires members != []
    ensures MembersText(members) != "" && MembersText(members)[0] == '"'
  {
    if |members| > 1 {
      MembersStart(members[..|members| - 1]);
    }
  }

  /** Every value is read back from its text, whatever follows. */
  lemma {:induction false} ValueRead(j: Json, rest: string)
    requires Delimited(j, rest)
    ensures ReadValue(Text(j) + rest) == Some((j, rest))
    decreases j
  {
    match j
    case Null => WordRead("null", rest);
    case Bool(b) => WordRead(if b then "true" else "false", rest);
    case Int(n) => IntValueRead(n, rest);
    case Str(t) => StringValueRead(t, rest);
    case Array(items) =>
      if items == [] {
        WordRead("[]", rest);
      } else {
        ItemsRead(items, rest, []);
        ArrayRead(items, rest);
      }
    case Object(members) =>
      if members == [] {
        WordRead("{}", rest);
      } else {
        MembersRead(members, rest, []);
        ObjectRead(members, rest);
      }
  }

  lemma WordRead(w: string, rest: string)
    ensures Starts(w + rest, w) && (w + rest)[|w|..] == rest
  {}

  lemma IntValueRead(n: int, rest: string)
    requires !DigitFirst(rest)
    ensures ReadValue(Decimal(n) + rest) == Some((Int(n), rest))
  {
    IntRead(n, rest);
  }

  lemma StringValueRead(t: string, rest: string)
    ensures ReadValue(StringText(t) + rest) == Some((Str(t), rest))
  {
    StringRead(t, rest);
    Rest('"', EscapeAll(t) + ("\"" + rest));
  }

  lemma ArrayRead(items: seq<Json>, rest: string)
    requires items != [] && ReadItems(ItemsText(items) + "]" + rest, []) == Some(([] + items, rest))
    ensures ReadValue(Text(Array(items)) + rest) == Some((Array(items), rest))
  {
    var s := Text(Array(items)) + rest;
    ItemsStart(items);
    assert s[1..] == ItemsText(items) + "]" + rest && [] + items == items;
    assert s[..2][1] == s[1];
  }

  lemma ObjectRead(members: seq<Member>, rest: string)
    requires members != [] && ReadMembers(MembersText(members) + "}" + rest, []) == Some(([] + members, rest))
    ensures ReadValue(Text(Object(members)) + rest) == Some((Object(members), rest))
  {
    var s := Text(Object(members)) + rest;
    MembersStart(members);
    assert s[1..] == MembersText(members) + "}" + rest && [] + members == members;
    assert s[..2][1] == s[1];
  }

  // ----- items -----

  /** Reading on after a comma, and ending at the bracket. */
  lemma ItemThen(j: Json, more: string, acc: seq<Json>)
    requires ReadValue(Text(j) + ("," + more)) == Some((j, "," + more))
    ensures ReadItems(Text(j) + ("," + more), acc) == ReadItems(more, acc + [j])
  {
    Rest(',', more);
  }

  lemma ItemLast(j: Json, rest: string, acc: seq<Json>)
    requires ReadValue(Text(j) + ("]" + rest)) == Some((j, "]" + rest))
    ensures ReadItems(Text(j) + ("]" + rest), acc) == Some((acc + [j], rest))
  {
    Rest(']', rest);
  }

  lemma {:induction false} ItemsThen(items: seq<Json>, more: string, acc: seq<Json>)
    requires items != []
    ensures ReadItems(ItemsText(items) + ("," + more), acc) == ReadItems(more, acc + items)
    decreases items
  {
    var n := |items| - 1;
    var last := items[n];
    ValueRead(last, "," + more);
    SplitItems(items, "," + more);
    AccLast(acc, items);
    if n > 0 {
      ItemsThen(items[..n], Text(last) + ("," + more), acc);
    }
    ItemThen(last, more, acc + items[..n]);
  }

  lemma {:induction false} ItemsRead(items: seq<Json>, rest: string, acc: seq<Json>)
    requires items != []
    ensures ReadItems(ItemsText(items) + "]" + rest, acc) == Some((acc + items, rest))
    decreases items
  {
    var n := |items| - 1;
    var last := items[n];
    ValueRead(last, "]" + rest);
    SplitItems(items, "]" + rest);
    AccLast(acc, items);
    Assoc(ItemsText(items), "]", rest);
    if n > 0 {
      ItemsThen(items[..n], Text(last) + ("]" + rest), acc);
    }
    ItemLast(last, rest, acc + items[..n]);
  }

  lemma SplitItems(items: seq<Json>, tail: string)
    requires items != []
    ensures var n := |items| - 1;
            ItemsText(items) + tail ==
            if n > 0 then ItemsText(items[..n]) + ("," + (Text(items[n]) + tail)) else Text(items[n]) + tail
  {
    var n := |items| - 1;
    SplitText(ItemsText(items[..n]), n, Text(items[n]), tail);
  }

  lemma AccLast<T>(acc: seq<T>, s: seq<T>)
    requires s != []
    ensures acc + s[..|s| - 1] + [s[|s| - 1]] == acc + s
    ensures |s| == 1 ==> acc + s[..|s| - 1] == acc
  {
    Assoc(acc, s[..|s| - 1], [s[|s| - 1]]);
    assert s == s[..|s| - 1] + [s[|s| - 1]];
  }

  lemma SplitText(before: string, n: nat, last: string, tail: string)
    requires n == 0 ==> before == ""
    ensures before + Separator(n) + last + tail == if n > 0 then before + ("," + (last + tail)) else last + tail
  {
    if n == 0 {
      NothingMore(last);
    } else {
      Assoc(before, ",", last);
      Assoc(before, "," + last, tail);
      Assoc(",", last, tail);
    }
  }

  // ----- members -----

  lemma MemberRead(m: Member, rest: string)
    requires ReadValue(Text(m.value) + rest) == Some((m.value, rest))
    ensures ReadMember(MemberText(m) + rest) == Some((m, rest))
  {
    var after := Text(m.value) + rest;
    KeyRead(m.key, ":" + after);
    Rest(':', after);
    Assoc(StringText(m.key), ":", Text(m.value));
    Assoc(StringText(m.key), ":" + Text(m.value), rest);
    Assoc(":", Text(m.value), rest);
  }

  lemma KeyRead(key: string, tail: string)
    ensures var s := StringText(key) + tail;
            s != "" && s[0] == '"' && ReadString(s[1..], "") == Some((key, tail))
  {
    StringRead(key, tail);
    Rest('"', EscapeAll(key) + ("\"" + tail));
  }

  lemma MemberThen(m: Member, more: string, acc: seq<Member>)
    requires ReadMember(MemberText(m) + ("," + more)) == Some((m, "," + more))
    ensures ReadMembers(MemberText(m) + ("," + more), acc) == ReadMembers(more, acc + [m])
  {
    Rest(',', more);
  }

  lemma MemberLast(m: Member, rest: string, acc: seq<Member>)
    requires ReadMember(MemberText(m) + ("}" + rest)) == Some((m, "}" + rest))
    ensures ReadMembers(MemberText(m) + ("}" + rest), acc) == Some((acc + [m], rest))
  {
    Rest('}', rest);
  }

  lemma {:induction false} MembersThen(members: seq<Member>, more: string, acc: seq<Member>)
    requires members != []
    ensures ReadMembers(MembersText(members) + ("," + more), acc) == ReadMembers(more, acc + members)
    decreases members
  {
    var n := |members| - 1;
    var last := members[n];
    ValueRead(last.value, "," + more);
    MemberRead(last, "," + more);
    SplitMembers(members, "," + more);
    AccLast(acc, members);
    if n > 0 {
      MembersThen(members[..n], MemberText(last) + ("," + more), acc);
    }
    MemberThen(last, more, acc + members[..n]);
  }

  lemma {:induction false} MembersRead(members: seq<Member>, rest: string, acc: seq<Member>)
    requires members != []
    ensures ReadMembers(MembersText(members) + "}" + rest, acc) == Some((acc + members, rest))
    decreases members
  {
    var n := |members| - 1;
    var last := members[n];
    ValueRead(last.value, "}" + rest);
    MemberRead(last, "}" + rest);
    SplitMembers(members, "}" + rest);
    AccLast(acc, members);
    Assoc(MembersText(members), "}", rest);
    if n > 0 {
      MembersThen(members[..n], MemberText(last) + ("}" + rest), acc);
    }
    MemberLast(last, rest, acc + members[..n]);
  }

  lemma SplitMembers(members: seq<Member>, tail: string)
    requires members != []
    ensures var n := |members| - 1;
            MembersText(members) + tail ==
            if n > 0 then MembersText(members[..n]) + ("," + (MemberText(members[n]) + tail))
            else MemberText(members[n]) + tail
  {
    var n := |members| - 1;
    SplitText(MembersText(members[..n]), n, MemberText(members[n]), tail);
  }

  // ----- what follows -----

  /** No text is the beginning of another, up to delimiters. */
  lemma UniquelyDecodable(a: Json, x: string, b: Json, y: string)
    requires Delimited(a, x) && Delimited(b, y) && Text(a) + x == Text(b) + y
    ensures a == b && x == y
  {
    ValueRead(a, x);
    ValueRead(b, y);
  }

  /** One value per line. */
  function Lines(js: seq<Json>): string {
    if js == [] then "" else Text(js[0]) + "\n" + Lines(js[1..])
  }

  function ReadLines(s: string, acc: seq<Json>): Option<seq<Json>>
    decreases |s|
  {
    if s == "" then Some(acc)
    else
      var v := ReadValue(s);
      if v.None? || v.value.1 == "" || v.value.1[0] != '\n' then None
      else ReadLines(v.value.1[1..], acc + [v.value.0])
  }

  /** A stream of results is read back, value by value. */
  lemma {:induction false} LinesRead(js: seq<Json>, acc: seq<Json>)
    ensures ReadLines(Lines(js), acc) == Some(acc + js)
    decreases |js|
  {
    if js == [] {
      assert acc + js == acc;
    } else {
      var tail := "\n" + Lines(js[1..]);
      ValueRead(js[0], tail);
      Assoc(Text(js[0]), "\n", Lines(js[1..]));
      Rest('\n', Lines(js[1..]));
      FirstChar(js[0]);
      LinesRead(js[1..], acc + [js[0]]);
      Assoc(acc, [js[0]], js[1..]);
      assert [js[0]] + js[1..] == js;
    }
  }
}
