/** Reading JSON text made of strings, arrays and objects of strings (RFC 8259, section 7). */
module Json {
  import opened Wrappers

  datatype Value =
    | Str(s: string)
    | Arr(items: seq<Value>)
    | Obj(fields: seq<(string, string)>)

  predicate IsControl(c: char) {
    c < ' '
  }

  function Unescape(c: char): Option<char> {
    match c
    case '\"' => Some('\"')
    case '\\' => Some('\\')
    case '/' => Some('/')
    case 'b' => Some('\U{0008}')
    case 'f' => Some('\U{000C}')
    case 'n' => Some('\n')
    case 'r' => Some('\r')
    case 't' => Some('\t')
    case _ => None
  }

  function HexDigitValue(c: char): Option<nat> {
    if '0' <= c <= '9' then Some(c as int - '0' as int)
    else if 'a' <= c <= 'f' then Some(c as int - 'a' as int + 10)
    else if 'A' <= c <= 'F' then Some(c as int - 'A' as int + 10)
    else None
  }

  /** The code unit of four hexadecimal digits; surrogates are not read. */
  function ReadUnit(s: string): Option<char>
    requires |s| >= 4
  {
    var a, b, c, d := HexDigitValue(s[0]), HexDigitValue(s[1]), HexDigitValue(s[2]), HexDigitValue(s[3]);
    if a.None? || b.None? || c.None? || d.None? then None
    else
      var n := 4096 * a.value + 256 * b.value + 16 * c.value + d.value;
      if n < 0xD800 then Some(n as char) else if 0xE000 <= n < 0x10000 then Some(n as char) else None
  }

  /** The string whose text starts `s`, just after its opening quote, and what follows its closing
      quote. A raw control character is an error. */
  function ReadString(s: string): (r: Option<(string, string)>)
    ensures r.Some? ==> |r.value.1| < |s|
  {
    if |s| == 0 then None
    else if s[0] == '\"' then Some(("", s[1..]))
    else if IsControl(s[0]) then None
    else if s[0] != '\\' then Cons(s[0], ReadString(s[1..]))
    else if |s| < 2 then None
    else if s[1] == 'u' then
      if |s| < 6 then None
      else
        var unit := ReadUnit(s[2..6]);
        if unit.None? then None else Cons(unit.value, ReadString(s[6..]))
    else
      var c := Unescape(s[1]);
      if c.None? then None else Cons(c.value, ReadString(s[2..]))
  }

  function Cons(c: char, r: Option<(string, string)>): (o: Option<(string, string)>)
    ensures o.Some? <==> r.Some?
    ensures r.Some? ==> o.value == ([c] + r.value.0, r.value.1)
  {
    if r.None? then None else Some(([c] + r.value.0, r.value.1))
  }

  function ReadValue(s: string): (r: Option<(Value, string)>)
    ensures r.Some? ==> |r.value.1| < |s|
    decreases |s|, 1
  {
    if |s| == 0 then None
    else if s[0] == '\"' then
      var str := ReadString(s[1..]);
      if str.None? then None else Some((Str(str.value.0), str.value.1))
    else if s[0] == '[' then
      if |s| > 1 && s[1] == ']' then Some((Arr([]), s[2..]))
      else
        var items := ReadItems(s[1..]);
        if items.None? then None else Some((Arr(items.value.0), items.value.1))
    else if s[0] == '{' then
      if |s| > 1 && s[1] == '}' then Some((Obj([]), s[2..]))
      else
        var fields := ReadFields(s[1..]);
        if fields.None? then None else Some((Obj(fields.value.0), fields.value.1))
    else None
  }

  /** One value, then a comma and more values, or the closing bracket. */
  function ReadItems(s: string): (r: Option<(seq<Value>, string)>)
    ensures r.Some? ==> |r.value.1| < |s|
    decreases |s|, 2
  {
    var first := ReadValue(s);
    if first.None? || |first.value.1| == 0 then None
    else if first.value.1[0] == ']' then Some(([first.value.0], first.value.1[1..]))
    else if first.value.1[0] != ',' then None
    else
      var rest := ReadItems(first.value.1[1..]);
      if rest.None? then None else Some(([first.value.0] + rest.value.0, rest.value.1))
  }

  /** One `"name":"text"` pair. */
  function ReadField(s: string): (r: Option<((string, string), string)>)
    ensures r.Some? ==> |r.value.1| < |s|
  {
    if |s| == 0 || s[0] != '\"' then None
    else
      var name := ReadString(s[1..]);
      if name.None? || |name.value.1| < 2 || name.value.1[0] != ':' || name.value.1[1] != '\"' then None
      else
        var text := ReadString(name.value.1[2..]);
        if text.None? then None else Some(((name.value.0, text.value.0), text.value.1))
  }

  function ReadFields(s: string): (r: Option<(seq<(string, string)>, string)>)
    ensures r.Some? ==> |r.value.1| < |s|
    decreases |s|
  {
    var first := ReadField(s);
    if first.None? || |first.value.1| == 0 then None
    else if first.value.1[0] == '}' then Some(([first.value.0], first.value.1[1..]))
    else if first.value.1[0] != ',' then None
    else
      var rest := ReadFields(first.value.1[1..]);
      if rest.None? then None else Some(([first.value.0] + rest.value.0, rest.value.1))
  }

  /** A whole document. */
  function Read(s: string): Option<Value> {
    var r := ReadValue(s);
    if r.Some? && r.value.1 == "" then Some(r.value.0) else None
  }
}
