/** The JSON value model of `serde_json` (objects keep insertion order), and its compact rendering. */
module Json {
  import opened Wrappers
  import opened Utf8

  /** A number: its text, the value `as_f64` reads, and whether that value is a negative zero. */
  datatype Num = Num(text: Bytes, value: real, negativeZero: bool)

  datatype Value =
    | Null
    | Bool(b: bool)
    | Number(n: Num)
    | String(s: Bytes)
    | Array(items: seq<Value>)
    | Object(entries: seq<Entry>)

  datatype Entry = Entry(key: Bytes, value: Value)

  /** An object never holds a key twice. */
  predicate DistinctKeys(entries: seq<Entry>) {
    forall i, j | 0 <= i < j < |entries| :: entries[i].key != entries[j].key
  }

  /** Keys are distinct in every object of the value. */
  predicate WellFormed(v: Value) {
    match v
    case Array(items) => forall x | x in items :: WellFormed(x)
    case Object(entries) => DistinctKeys(entries) && forall e | e in entries :: WellFormed(e.value)
    case _ => true
  }

  /** The index of `key`, or the number of entries when it is absent. */
  function Find(entries: seq<Entry>, key: Bytes): (i: nat)
    ensures i <= |entries|
    ensures i < |entries| ==> entries[i].key == key
    ensures forall k | 0 <= k < i :: entries[k].key != key
  {
    if entries == [] || entries[0].key == key then 0 else 1 + Find(entries[1..], key)
  }

  function Get(entries: seq<Entry>, key: Bytes): (v: Option<Value>)
    ensures v.Some? <==> exists e :: e in entries && e.key == key
    ensures v.Some? ==> Entry(key, v.value) in entries
  {
    var i := Find(entries, key);
    if i < |entries| then assert entries[i] in entries; Some(entries[i].value) else None
  }

  /** `Map::insert`: overwrite in place, or append. */
  function Insert(entries: seq<Entry>, key: Bytes, value: Value): (r: seq<Entry>)
    ensures DistinctKeys(entries) ==> DistinctKeys(r)
  {
    var i := Find(entries, key);
    if i < |entries| then entries[i := Entry(key, value)] else entries + [Entry(key, value)]
  }

  // ---------- Compact rendering ----------

  function HexDigit(n: nat): (c: char)
    requires n < 16
  {
    "0123456789abcdef"[n]
  }

  /** The escape of one byte of a string (section 7 of RFC 8259). */
  function EscapeByte(b: char): (s: Bytes) {
    if b == '"' then "\\\""
    else if b == '\\' then "\\\\"
    else if b as int == 8 then "\\b"
    else if b == '\t' then "\\t"
    else if b == '\n' then "\\n"
    else if b as int == 12 then "\\f"
    else if b == '\r' then "\\r"
    else if b as int < 0x20 then "\\u00" + [HexDigit(b as int / 16), HexDigit(b as int % 16)]
    else [b]
  }

  function EscapeText(s: Bytes): (r: Bytes) {
    if s == [] then [] else EscapeByte(s[0]) + EscapeText(s[1..])
  }

  function RenderString(s: Bytes): (r: Bytes) {
    ['"'] + EscapeText(s) + ['"']
  }

  function Render(v: Value): (r: Bytes)
    decreases v, 0
  {
    match v
    case Null => "null"
    case Bool(b) => if b then "true" else "false"
    case Number(n) => n.text
    case String(s) => RenderString(s)
    case Array(items) => ['['] + RenderItems(items) + [']']
    case Object(entries) => ['{'] + RenderEntries(entries) + ['}']
  }

  function RenderItems(items: seq<Value>): (r: Bytes)
    decreases items, 1
  {
    if items == [] then []
    else if |items| == 1 then Render(items[0])
    else Render(items[0]) + [','] + RenderItems(items[1..])
  }

  function RenderEntry(e: Entry): (r: Bytes)
    decreases e, 1
  {
    RenderString(e.key) + [':'] + Render(e.value)
  }

  function RenderEntries(entries: seq<Entry>): (r: Bytes)
    decreases entries, 1
  {
    if entries == [] then []
    else if |entries| == 1 then RenderEntry(entries[0])
    else RenderEntry(entries[0]) + [','] + RenderEntries(entries[1..])
  }

  // ---------- Nesting ----------

  /** How many levels of values nest in `v`, itself included. */
  function Height(v: Value): (h: nat)
    ensures h >= 1
    decreases v, 0
  {
    match v
    case Array(items) => 1 + HeightOfItems(items)
    case Object(entries) => 1 + HeightOfEntries(entries)
    case _ => 1
  }

  function HeightOfItems(items: seq<Value>): (h: nat)
    ensures forall x | x in items :: Height(x) <= h
    decreases items, 1
  {
    if items == [] then 0
    else
      var a, b := Height(items[0]), HeightOfItems(items[1..]);
      assert items[0] in items;
      if a < b then b else a
  }

  function HeightOfEntries(entries: seq<Entry>): (h: nat)
    ensures forall e | e in entries :: Height(e.value) <= h
    decreases entries, 1
  {
    if entries == [] then 0
    else
      var a, b := HeightOfEntry(entries[0]), HeightOfEntries(entries[1..]);
      assert entries[0] in entries;
      if a < b then b else a
  }

  function HeightOfEntry(e: Entry): (h: nat)
    ensures h == Height(e.value) >= 1
    decreases e, 1
  {
    Height(e.value)
  }
}
