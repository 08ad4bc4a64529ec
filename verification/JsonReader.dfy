/** A reader of compact JSON (RFC 8259), the inverse that the rendering in `Json` is measured by. */
module JsonReader {
  import opened Wrappers
  import opened Utf8
  import opened Json

  /** The number that a text writes. */
  type NumberValue = Bytes -> Num

  predicate IsNumberByte(b: char) { '0' <= b <= '9' || b == '+' || b == '-' || b == '.' || b == 'e' || b == 'E' }

  function NumberEnd(s: Bytes): (i: nat)
    ensures i <= |s|
  {
    if s == [] || !IsNumberByte(s[0]) then 0 else 1 + NumberEnd(s[1..])
  }

  function HexDigitValue(c: char): (n: Option<nat>) {
    if '0' <= c <= '9' then Some(c as int - '0' as int)
    else if 'a' <= c <= 'f' then Some(c as int - 'a' as int + 10)
    else None
  }

  /** The character behind a backslash. */
  function EscapedChar(letter: char): (c: Option<char>) {
    if letter == '"' || letter == '\\' then Some(letter)
    else if letter == 'b' then Some(8 as char)
    else if letter == 't' then Some(9 as char)
    else if letter == 'n' then Some(10 as char)
    else if letter == 'f' then Some(12 as char)
    else if letter == 'r' then Some(13 as char)
    else None
  }

  /** One character of a string, and the text after it. */
  function ReadChar(s: Bytes): (r: Option<(char, Bytes)>)
    requires s != []
    ensures r.Some? ==> |r.value.1| < |s|
  {
    if s[0] != '\\' then Some((s[0], s[1..]))
    else if |s| >= 6 && s[1] == 'u' then
      var high, low := HexDigitValue(s[4]), HexDigitValue(s[5]);
      if s[2] != '0' || s[3] != '0' || high.None? || low.None? then None
      else Some(((high.value * 16 + low.value) as char, s[6..]))
    else if |s| >= 2 && EscapedChar(s[1]).Some? then Some((EscapedChar(s[1]).value, s[2..]))
    else None
  }

  /** A string behind its opening quote, and the text after its closing quote. */
  function ReadString(s: Bytes): (r: Option<(Bytes, Bytes)>)
    ensures r.Some? ==> |r.value.1| < |s|
    decreases |s|
  {
    if s == [] then None
    else if s[0] == '"' then Some(([], s[1..]))
    else match ReadChar(s)
      case None => None
      case Some((c, rest)) =>
        match ReadString(rest)
        case None => None
        case Some((text, after)) => Some(([c] + text, after))
  }

  function ReadValue(s: Bytes, numbers: NumberValue): (r: Option<(Value, Bytes)>)
    ensures r.Some? ==> |r.value.1| < |s|
    decreases |s|, 0
  {
    if s == [] then None
    else if "null" <= s then Some((Null, s[4..]))
    else if "true" <= s then Some((Bool(true), s[4..]))
    else if "false" <= s then Some((Bool(false), s[5..]))
    else if s[0] == '"' then
      match ReadString(s[1..])
      case None => None
      case Some((text, after)) => Some((String(text), after))
    else if s[0] == '[' then
      if |s| > 1 && s[1] == ']' then Some((Array([]), s[2..]))
      else match ReadItems(s[1..], numbers)
        case None => None
        case Some((items, after)) => Some((Array(items), after))
    else if s[0] == '{' then
      if |s| > 1 && s[1] == '}' then Some((Object([]), s[2..]))
      else match ReadEntries(s[1..], numbers)
        case None => None
        case Some((entries, after)) => Some((Object(entries), after))
    else
      var i := NumberEnd(s);
      if i == 0 then None else Some((Number(numbers(s[..i])), s[i..]))
  }

  /** One item or more, up to the closing bracket. */
  function ReadItems(s: Bytes, numbers: NumberValue): (r: Option<(seq<Value>, Bytes)>)
    ensures r.Some? ==> |r.value.1| < |s|
    decreases |s|, 1
  {
    match ReadValue(s, numbers)
    case None => None
    case Some((v, t)) =>
      if t == [] then None
      else if t[0] == ']' then Some(([v], t[1..]))
      else if t[0] != ',' then None
      else match ReadItems(t[1..], numbers)
        case None => None
        case Some((more, after)) => Some(([v] + more, after))
  }

  function ReadEntry(s: Bytes, numbers: NumberValue): (r: Option<(Entry, Bytes)>)
    ensures r.Some? ==> |r.value.1| < |s|
    decreases |s|, 1
  {
    if s == [] || s[0] != '"' then None
    else match ReadString(s[1..])
      case None => None
      case Some((key, t)) =>
        if t == [] || t[0] != ':' then None
        else match ReadValue(t[1..], numbers)
          case None => None
          case Some((v, after)) => Some((Entry(key, v), after))
  }

  /** One entry or more, up to the closing brace. */
  function ReadEntries(s: Bytes, numbers: NumberValue): (r: Option<(seq<Entry>, Bytes)>)
    ensures r.Some? ==> |r.value.1| < |s|
    decreases |s|, 2
  {
    match ReadEntry(s, numbers)
    case None => None
    case Some((e, t)) =>
      if t == [] then None
      else if t[0] == '}' then Some(([e], t[1..]))
      else if t[0] != ',' then None
      else match ReadEntries(t[1..], numbers)
        case None => None
        case Some((more, after)) => Some(([e] + more, after))
  }

  // ---------- Rendering is read back ----------

  /** The text of every number is one that a reader takes whole, and writes that number. */
  predicate HasReadableNumbers(v: Value, numbers: NumberValue) {
    match v
    case Number(n) => n.text != [] && (forall b | b in n.text :: IsNumberByte(b)) && n.text[0] != '+' && numbers(n.text) == n
    case Array(items) => forall x | x in items :: HasReadableNumbers(x, numbers)
    case Object(entries) => forall e | e in entries :: HasReadableNumbers(e.value, numbers)
    case _ => true
  }

  lemma {:induction false} NumberEndsAt(text: Bytes, rest: Bytes)
    requires (forall b | b in text :: IsNumberByte(b)) && (rest == [] || !IsNumberByte(rest[0]))
    ensures NumberEnd(text + rest) == |text|
  {
    if text == [] {
      assert text + rest == rest;
    } else {
      assert text[0] in text && (text + rest)[1..] == text[1..] + rest;
      NumberEndsAt(text[1..], rest);
    }
  }

  lemma ByteIsRead(b: char, rest: Bytes)
    ensures EscapeByte(b) + rest != [] && (EscapeByte(b) + rest)[0] != '"'
    ensures ReadChar(EscapeByte(b) + rest) == Some((b, rest))
  {
    var e := EscapeByte(b);
    var s := e + rest;
    if |e| == 6 {
      HexIsRead(b as int / 16);
      HexIsRead(b as int % 16);
      assert s[..6] == e && s[6..] == rest;
    } else if |e| == 2 {
      assert s[0] == e[0] && s[1] == e[1] && s[2..] == rest;
    } else {
      assert s[0] == b && s[1..] == rest;
    }
  }

  lemma HexIsRead(n: nat)
    requires n < 16
    ensures HexDigitValue(HexDigit(n)) == Some(n) && HexDigit(n) != 'u'
  {
  }

  lemma {:induction false} StringIsRead(text: Bytes, rest: Bytes)
    ensures ReadString(EscapeText(text) + ['"'] + rest) == Some((text, rest))
    decreases |text|
  {
    if text == [] {
      assert EscapeText(text) + ['"'] + rest == ['"'] + rest;
    } else {
      var more := EscapeText(text[1..]) + ['"'] + rest;
      assert EscapeText(text) + ['"'] + rest == EscapeByte(text[0]) + more;
      ByteIsRead(text[0], more);
      StringIsRead(text[1..], rest);
      CharThenString(EscapeByte(text[0]) + more, text[0], more, text[1..], rest);
      assert text == [text[0]] + text[1..];
    }
  }

  lemma CharThenString(s: Bytes, c: char, more: Bytes, text: Bytes, rest: Bytes)
    requires s != [] && s[0] != '"' && ReadChar(s) == Some((c, more)) && ReadString(more) == Some((text, rest))
    ensures ReadString(s) == Some(([c] + text, rest))
  {
  }

  predicate EndsNumber(rest: Bytes) { rest == [] || !IsNumberByte(rest[0]) }

  /** Compact JSON is read back as the value it renders. */
  lemma {:induction false} RenderIsRead(v: Value, numbers: NumberValue, rest: Bytes)
    requires HasReadableNumbers(v, numbers) && EndsNumber(rest)
    ensures ReadValue(Render(v) + rest, numbers) == Some((v, rest))
    decreases v, 1
  {
    match v
    case Null => WordIsRead(v, numbers, rest);
    case Bool(_) => WordIsRead(v, numbers, rest);
    case Number(n) => NumberIsRead(n, numbers, rest);
    case String(text) => TextIsRead(text, numbers, rest);
    case Array(items) => ArrayIsRead(items, numbers, rest);
    case Object(entries) => ObjectIsRead(entries, numbers, rest);
  }

  lemma WordIsRead(v: Value, numbers: NumberValue, rest: Bytes)
    requires v.Null? || v.Bool?
    ensures ReadValue(Render(v) + rest, numbers) == Some((v, rest))
  {
    var word := Render(v);
    var s := word + rest;
    assert s[..|word|] == word && s[|word|..] == rest && s[0] == word[0];
  }

  lemma TextIsRead(text: Bytes, numbers: NumberValue, rest: Bytes)
    ensures ReadValue(RenderString(text) + rest, numbers) == Some((String(text), rest))
  {
    var s := RenderString(text) + rest;
    assert s[0] == '"' && s[1..] == EscapeText(text) + ['"'] + rest;
    StringIsRead(text, rest);
  }

  function AfterBracket(t: Bytes, numbers: NumberValue): (r: Option<(Value, Bytes)>)
    requires t != []
  {
    if t[0] == ']' then Some((Array([]), t[1..]))
    else match ReadItems(t, numbers) case None => None case Some((items, after)) => Some((Array(items), after))
  }

  function AfterBrace(t: Bytes, numbers: NumberValue): (r: Option<(Value, Bytes)>)
    requires t != []
  {
    if t[0] == '}' then Some((Object([]), t[1..]))
    else match ReadEntries(t, numbers) case None => None case Some((es, after)) => Some((Object(es), after))
  }

  /** What an opening bracket or brace leads to. */
  lemma OpenIsRead(open: char, t: Bytes, numbers: NumberValue)
    requires (open == '[' || open == '{') && t != []
    ensures open == '[' ==> ReadValue([open] + t, numbers) == AfterBracket(t, numbers)
    ensures open == '{' ==> ReadValue([open] + t, numbers) == AfterBrace(t, numbers)
  {
    var s := [open] + t;
    assert s[0] == open && s[1] == t[0] && s[1..] == t && s[2..] == t[1..];
  }

  lemma {:induction false} ArrayIsRead(items: seq<Value>, numbers: NumberValue, rest: Bytes)
    requires forall x | x in items :: HasReadableNumbers(x, numbers)
    ensures ReadValue(['['] + RenderItems(items) + [']'] + rest, numbers) == Some((Array(items), rest))
    decreases items, 3
  {
    var t := RenderItems(items) + ([']'] + rest);
    assert ['['] + RenderItems(items) + [']'] + rest == ['['] + t;
    OpenIsRead('[', t, numbers);
    if items == [] {
      assert t == [']'] + rest && t[1..] == rest;
    } else {
      ItemsAreRead(items, numbers, rest);
      FirstByte(items[0], numbers);
      assert t[0] == Render(items[0])[0];
    }
  }

  lemma {:induction false} ObjectIsRead(entries: seq<Entry>, numbers: NumberValue, rest: Bytes)
    requires forall e | e in entries :: HasReadableNumbers(e.value, numbers)
    ensures ReadValue(['{'] + RenderEntries(entries) + ['}'] + rest, numbers) == Some((Object(entries), rest))
    decreases entries, 3
  {
    var t := RenderEntries(entries) + (['}'] + rest);
    assert ['{'] + RenderEntries(entries) + ['}'] + rest == ['{'] + t;
    OpenIsRead('{', t, numbers);
    if entries == [] {
      assert t == ['}'] + rest && t[1..] == rest;
    } else {
      EntriesAreRead(entries, numbers, rest);
      assert t[0] == RenderEntry(entries[0])[0] == '"';
    }
  }

  lemma NumberIsRead(n: Num, numbers: NumberValue, rest: Bytes)
    requires HasReadableNumbers(Number(n), numbers) && EndsNumber(rest)
    ensures ReadValue(n.text + rest, numbers) == Some((Number(n), rest))
  {
    var s := n.text + rest;
    NumberEndsAt(n.text, rest);
    assert s[0] == n.text[0] && n.text[0] in n.text;
    assert s[..|n.text|] == n.text && s[|n.text|..] == rest;
  }

  lemma FirstByte(v: Value, numbers: NumberValue)
    requires HasReadableNumbers(v, numbers)
    ensures Render(v) != [] && Render(v)[0] != ']'
  {
    if v.Number? {
      assert v.n.text[0] in v.n.text;
    }
  }

  lemma {:induction false} ItemsAreRead(items: seq<Value>, numbers: NumberValue, rest: Bytes)
    requires items != [] && forall x | x in items :: HasReadableNumbers(x, numbers)
    ensures ReadItems(RenderItems(items) + ([']'] + rest), numbers) == Some((items, rest))
    decreases items, 2
  {
    var close := [']'] + rest;
    var s := RenderItems(items) + close;
    if |items| == 1 {
      RenderIsRead(items[0], numbers, close);
      assert items == [items[0]];
    } else {
      var more := RenderItems(items[1..]) + close;
      assert s == Render(items[0]) + ([','] + more);
      RenderIsRead(items[0], numbers, [','] + more);
      ItemsAreRead(items[1..], numbers, rest);
      assert ([','] + more)[1..] == more && items == [items[0]] + items[1..];
    }
  }

  lemma {:induction false} EntryIsRead(e: Entry, numbers: NumberValue, rest: Bytes)
    requires HasReadableNumbers(e.value, numbers) && EndsNumber(rest)
    ensures ReadEntry(RenderEntry(e) + rest, numbers) == Some((e, rest))
    decreases e, 1
  {
    var value := Render(e.value) + rest;
    assert RenderEntry(e) + rest == RenderString(e.key) + ([':'] + value);
    RenderIsRead(e.value, numbers, rest);
    KeyThenValue(e.key, value, e.value, numbers, rest);
  }

  lemma KeyThenValue(key: Bytes, t: Bytes, v: Value, numbers: NumberValue, rest: Bytes)
    requires ReadValue(t, numbers) == Some((v, rest))
    ensures ReadEntry(RenderString(key) + ([':'] + t), numbers) == Some((Entry(key, v), rest))
  {
    var after := [':'] + t;
    var s := RenderString(key) + after;
    assert s[0] == '"' && s[1..] == EscapeText(key) + ['"'] + after;
    StringIsRead(key, after);
    assert after[0] == ':' && after[1..] == t;
  }

  lemma FirstEntryText(entries: seq<Entry>, close: Bytes)
    requires |entries| > 1
    ensures RenderEntries(entries) + close == RenderEntry(entries[0]) + ([','] + (RenderEntries(entries[1..]) + close))
  {
    EntriesUnfold(entries);
    Reassociate(RenderEntry(entries[0]), [','], RenderEntries(entries[1..]), close);
  }

  lemma EntriesUnfold(entries: seq<Entry>)
    requires |entries| > 1
    ensures RenderEntries(entries) == RenderEntry(entries[0]) + [','] + RenderEntries(entries[1..])
  {
  }

  lemma Reassociate(a: Bytes, b: Bytes, c: Bytes, d: Bytes)
    ensures a + b + c + d == a + (b + (c + d))
  {
  }

  lemma ConsEntries(entries: seq<Entry>)
    requires entries != []
    ensures entries == [entries[0]] + entries[1..] && (|entries| == 1 ==> entries == [entries[0]])
  {
  }

  lemma LastEntry(s: Bytes, e: Entry, numbers: NumberValue, rest: Bytes)
    requires ReadEntry(s, numbers) == Some((e, ['}'] + rest))
    ensures ReadEntries(s, numbers) == Some(([e], rest))
  {
    assert (['}'] + rest)[1..] == rest;
  }

  lemma EntryThenEntries(s: Bytes, e: Entry, t: Bytes, more: seq<Entry>, numbers: NumberValue, rest: Bytes)
    requires ReadEntry(s, numbers) == Some((e, [','] + t)) && ReadEntries(t, numbers) == Some((more, rest))
    ensures ReadEntries(s, numbers) == Some(([e] + more, rest))
  {
    assert ([','] + t)[1..] == t;
  }

  lemma {:induction false} EntriesAreRead(entries: seq<Entry>, numbers: NumberValue, rest: Bytes)
    requires entries != [] && forall e | e in entries :: HasReadableNumbers(e.value, numbers)
    ensures ReadEntries(RenderEntries(entries) + (['}'] + rest), numbers) == Some((entries, rest))
    decreases entries, 2
  {
    var close := ['}'] + rest;
    var s := RenderEntries(entries) + close;
    if |entries| == 1 {
      EntryIsRead(entries[0], numbers, close);
      LastEntry(s, entries[0], numbers, rest);
      ConsEntries(entries);
    } else {
      var more := RenderEntries(entries[1..]) + close;
      FirstEntryText(entries, close);
      EntryIsRead(entries[0], numbers, [','] + more);
      EntriesAreRead(entries[1..], numbers, rest);
      EntryThenEntries(s, entries[0], more, entries[1..], numbers, rest);
      ConsEntries(entries);
    }
  }
}
