/** What the parser accepts, as functions on the bytes that are left to read. */
module ParseSpec {
  import opened Bytes
  import opened Json
  import opened Numbers
  import opened Strings
  import opened Wrappers

  const NESTING_LIMIT: nat := 1000

  /** A value and the bytes after it. */
  type Parsed = Option<(Json, bytes)>

  function DropBlanks(s: bytes): (r: bytes)
    ensures |r| <= |s|
    ensures r != [] ==> r[0] > SPACE
  {
    if s == [] || s[0] > SPACE then s else DropBlanks(s[1..])
  }

  /** Every byte up to the space is blank, NUL included; if only blanks are left, the last stays. */
  function SkipBlanks(s: bytes): (r: bytes)
    ensures |r| <= |s|
    ensures s != [] ==> r != []
  {
    var t := DropBlanks(s);
    if t == [] && s != [] then s[|s| - 1..] else t
  }

  function ParseString(s: bytes): (r: Option<(bytes, bytes)>)
    ensures r.Some? ==> |r.value.1| < |s| && NulFree(r.value.0)
  {
    if s == [] || s[0] != QUOTE then None
    else
      match Scan(s[1..])
      case None => None
      case Some(n) =>
        match Decode(s[1..1 + n])
        case None => None
        case Some(text) => Some((CString(text), s[n + 2..]))
  }

  function ParseNumber(s: bytes): (r: Option<(real, bytes)>)
    ensures r.Some? ==> |r.value.1| < |s|
  {
    match Strtod(s[..NumberRun(s)])
    case None => None
    case Some((x, n)) => Some((x, s[n..]))
  }

  function ParseValue(s: bytes, depth: nat): (r: Parsed)
    ensures r.Some? ==> |r.value.1| < |s|
    decreases |s|, 1
  {
    if NULL_TEXT <= s then Some((Null, s[4..]))
    else if FALSE_TEXT <= s then Some((False, s[5..]))
    else if TRUE_TEXT <= s then Some((True, s[4..]))
    else if s == [] then None
    else if s[0] == QUOTE then
      match ParseString(s)
      case None => None
      case Some((text, t)) => Some((Str(text), t))
    else if s[0] == MINUS || IsDigit(s[0]) then
      match ParseNumber(s)
      case None => None
      case Some((x, t)) => Some((Number(x), t))
    else if s[0] == LEFT_BRACKET then ParseArray(s, depth)
    else if s[0] == LEFT_BRACE then ParseObject(s, depth)
    else None
  }

  function ParseArray(s: bytes, depth: nat): (r: Parsed)
    requires s != []
    ensures r.Some? ==> |r.value.1| < |s|
    decreases |s|, 0
  {
    if depth >= NESTING_LIMIT then None
    else
      var t := SkipBlanks(s[1..]);
      if t == [] then None
      else if t[0] == RIGHT_BRACKET then Some((Array([]), t[1..]))
      else ParseItems(t, depth + 1, [])
  }

  /** The loop over elements, from in front of one; `before` are those already read. */
  function ParseItems(s: bytes, depth: nat, before: seq<Json>): (r: Parsed)
    ensures r.Some? ==> |r.value.1| < |s|
    decreases |s|, 2
  {
    match ParseValue(SkipBlanks(s), depth)
    case None => None
    case Some((v, rest)) =>
      var t := SkipBlanks(rest);
      if t == [] then None
      else if t[0] == COMMA then ParseItems(t[1..], depth, before + [v])
      else if t[0] == RIGHT_BRACKET then Some((Array(before + [v]), t[1..]))
      else None
  }

  function ParseObject(s: bytes, depth: nat): (r: Parsed)
    requires s != []
    ensures r.Some? ==> |r.value.1| < |s|
    decreases |s|, 0
  {
    if depth >= NESTING_LIMIT then None
    else
      var t := SkipBlanks(s[1..]);
      if t == [] then None
      else if t[0] == RIGHT_BRACE then Some((Object([]), t[1..]))
      else ParseMembers(t, depth + 1, [])
  }

  /** One `key : value`. */
  function ParseMember(s: bytes, depth: nat): (r: Option<(Member, bytes)>)
    ensures r.Some? ==> |r.value.1| < |s|
    decreases |s|, 2
  {
    match ParseString(SkipBlanks(s))
    case None => None
    case Some((key, rest)) =>
      var t := SkipBlanks(rest);
      if t == [] || t[0] != COLON then None
      else
        match ParseValue(SkipBlanks(t[1..]), depth)
        case None => None
        case Some((v, after)) => Some((Member(key, v), after))
  }

  function ParseMembers(s: bytes, depth: nat, before: seq<Member>): (r: Parsed)
    ensures r.Some? ==> |r.value.1| < |s|
    decreases |s|, 3
  {
    match ParseMember(s, depth)
    case None => None
    case Some((m, rest)) =>
      var t := SkipBlanks(rest);
      if t == [] then None
      else if t[0] == COMMA then ParseMembers(t[1..], depth, before + [m])
      else if t[0] == RIGHT_BRACE then Some((Object(before + [m]), t[1..]))
      else None
  }

  const BOM: bytes := [0xEF, 0xBB, 0xBF]

  /** A byte order mark is passed over when at least two more bytes follow it. */
  function SkipBom(s: bytes): (r: bytes)
    ensures s != [] ==> r != []
    ensures |r| <= |s|
  {
    if |s| > 4 && BOM <= s then s[3..] else s
  }

  /** A whole buffer: the value and what follows it. With `terminated`, only blanks may follow, up to
      a NUL that is the last byte looked at. */
  function ParseBuffer(s: bytes, terminated: bool): (r: Parsed)
    ensures r.Some? ==> |r.value.1| < |s|
  {
    if s == [] then None
    else
      match ParseValue(SkipBlanks(SkipBom(s)), 0)
      case None => None
      case Some((v, rest)) =>
        if !terminated then Some((v, rest))
        else
          var t := SkipBlanks(rest);
          if t == [] || t[0] != NUL then None else Some((v, t))
  }

  /** `cJSON_ParseWithOpts` on a C string: its NUL is part of the buffer. */
  function ParseText(text: bytes, terminated: bool): Parsed
  {
    ParseBuffer(CString(text) + [NUL], terminated)
  }
}
