/** The recursive-descent parser over a mutable offset and depth. */
module Parser {
  import opened Bytes
  import opened Json
  import opened Numbers
  import opened Strings
  import opened Utf
  import opened Wrappers
  import ParseSpec

  lemma {:induction false} ClosedGrows(p: bytes, w: bytes)
    requires Closed(p)
    requires (|w| == 1 && w[0] != QUOTE && w[0] != BACKSLASH) || (|w| == 2 && w[0] == BACKSLASH)
    ensures Closed(p + w)
    ensures Skipped(p + w) == Skipped(p) + if |w| == 2 then 1 else 0
  {
    if p == [] {
      assert p + w == w;
    } else {
      var k := if p[0] == BACKSLASH then 2 else 1;
      assert (p + w)[k..] == p[k..] + w;
      ClosedGrows(p[k..], w);
    }
  }

  lemma NothingSkipped(p: bytes)
    requires p == []
    ensures Closed(p) && Skipped(p) == 0
  {
  }

  /** The first scan at position `at`: where it stops, and how it goes on. */
  lemma ScanAt(s: bytes, at: nat)
    requires at <= |s|
    ensures at == |s| ==> Scan(s[at..]) == None
    ensures at < |s| && s[at] == QUOTE ==> Scan(s[at..]) == Some(0)
    ensures at + 1 == |s| && s[at] == BACKSLASH ==> Scan(s[at..]) == None
    ensures at + 1 < |s| && s[at] == BACKSLASH ==> Scan(s[at..]) == Shift(2, Scan(s[at + 2..]))
    ensures at < |s| && s[at] != BACKSLASH && s[at] != QUOTE ==> Scan(s[at..]) == Shift(1, Scan(s[at + 1..]))
  {
    if at + 1 < |s| {
      assert s[at..][2..] == s[at + 2..];
    }
    if at < |s| {
      assert s[at..][1..] == s[at + 1..];
    }
  }

  lemma NumberRunAt(s: bytes, at: nat)
    requires at <= |s|
    ensures at < |s| && IsNumberByte(s[at]) ==> NumberRun(s[at..]) == 1 + NumberRun(s[at + 1..])
    ensures at == |s| || !IsNumberByte(s[at]) ==> NumberRun(s[at..]) == 0
  {
    if at < |s| {
      assert s[at..][1..] == s[at + 1..];
    }
  }

  lemma SuffixSlices(s: bytes, at: nat, n: nat)
    requires at + n <= |s|
    ensures s[at..][..n] == s[at..at + n]
    ensures s[at..][n..] == s[at + n..]
  {
  }

  lemma NumberAt(s: bytes, at: nat, length: nat)
    requires at + length <= |s| && NumberRun(s[at..]) == length
    ensures ParseSpec.ParseNumber(s[at..]) ==
            match Strtod(s[at..at + length])
            case None => None
            case Some((x, used)) => Some((x, s[at + used..]))
  {
    hide Strtod, NumberRun;
    SuffixSlices(s, at, length);
    var r := Strtod(s[at..at + length]);
    if r.Some? {
      SuffixSlices(s, at, r.value.1);
    }
  }

  lemma SliceOfSlice(s: bytes, a: nat, b: nat, i: nat, j: nat)
    requires a <= b <= |s| && i <= j <= b - a
    ensures s[a..b][i..j] == s[a + i..a + j]
  {
    var p := s[a..b];
    assert forall k :: 0 <= k < j - i ==> p[i..j][k] == p[i + k] == s[a + i + k];
  }

  /** The bytes decoded so far, followed by what is still to come. */
  function Resume(done: bytes, rest: Option<bytes>): Option<bytes> {
    match rest
    case None => None
    case Some(r) => Some(done + r)
  }

  lemma NothingYet(p: bytes)
    ensures Resume([], Decode(Drop(p, 0))) == Decode(p)
    ensures SkipsBefore(p, 0) == 0
  {
    assert Drop(p, 0) == p;
    if Decode(p).Some? {
      assert [] + Decode(p).value == Decode(p).value;
    }
  }

  lemma NothingLeft(p: bytes, done: bytes)
    requires p == []
    ensures Resume(done, Decode(p)) == Some(done)
  {
    assert done + [] == done;
  }

  lemma DecodeResumes(p: bytes, i: nat, done: bytes)
    requires i < |p|
    ensures Resume(done, Decode(p[i..])) ==
            match DecodeStep(p[i..])
            case None => None
            case Some((k, out)) => Resume(done + out, Decode(Drop(p, i + k)))
  {
    hide DecodeStep;
    var q := p[i..];
    if DecodeStep(q).Some? {
      var (k, out) := DecodeStep(q).value;
      assert Drop(q, k) == Drop(p, i + k);
      if Decode(Drop(q, k)).Some? {
        RegroupThree(done, out, Decode(Drop(q, k)).value);
      }
    }
  }

  lemma {:induction false} SpareGrows(p: bytes, m: nat)
    requires m <= |p|
    ensures m - SkipsBefore(p, m) <= |p| - Skipped(p)
    decreases |p| - m
  {
    if m < |p| {
      SkipsByOne(p, m);
      SpareGrows(p, m + 1);
    }
  }

  /** With `at` bytes written for the first `i`, one more round stays inside the buffer. */
  lemma RoundFits(p: bytes, i: nat, at: nat)
    requires Closed(p) && i < |p|
    requires at + SkipsBefore(p, i) <= i
    ensures DecodeStep(p[i..]).Some? ==>
              var (k, out) := DecodeStep(p[i..]).value;
              var m := Min(i + k, |p|);
              at + |out| + SkipsBefore(p, m) <= m && at + |out| + 2 <= OutputSize(p)
  {
    if DecodeStep(p[i..]).Some? {
      StepFits(p, i);
      SpareGrows(p, Min(i + DecodeStep(p[i..]).value.0, |p|));
    }
  }

  class ParseBuffer {
    const content: bytes
    var offset: nat
    var depth: nat

    ghost predicate Valid()
      reads this
    {
      offset <= |content| && depth <= ParseSpec.NESTING_LIMIT
    }

    function Rest(): bytes
      requires Valid()
      reads this
    {
      content[offset..]
    }

    /** A parser's answer agrees with what the specification says of the bytes it started from. */
    ghost predicate Agrees(spec: ParseSpec.Parsed, r: Option<Json>)
      requires Valid()
      reads this
    {
      match spec
      case None => r.None?
      case Some((v, t)) => r == Some(v) && Rest() == t
    }

    constructor (text: bytes)
      ensures content == text && offset == 0 && depth == 0
    {
      content, offset, depth := text, 0, 0;
    }

    method SkipWhitespace()
      requires Valid()
      modifies this`offset
      ensures Valid() && offset >= old(offset)
      ensures Rest() == ParseSpec.SkipBlanks(old(Rest()))
    {
      if offset >= |content| {
        return;
      }
      while offset < |content| && content[offset] <= SPACE
        invariant old(offset) <= offset <= |content|
        invariant ParseSpec.DropBlanks(old(Rest())) == ParseSpec.DropBlanks(content[offset..])
      {
        offset := offset + 1;
        assert content[offset - 1..][1..] == content[offset..];
      }
      if offset == |content| {
        offset := offset - 1;
      }
      assert old(Rest())[|old(Rest())| - 1..] == content[|content| - 1..];
    }

    /** Looking for the closing quote of the literal that starts at `offset`. */
    method ScanString() returns (ok: bool, end: nat, skipped: nat)
      requires Valid() && offset < |content|
      ensures ok == Scan(content[offset + 1..]).Some?
      ensures ok ==> end == offset + 1 + Scan(content[offset + 1..]).value < |content| && content[end] == QUOTE
      ensures ok ==> Closed(content[offset + 1..end]) && skipped == Skipped(content[offset + 1..end])
    {
      hide Scan, Closed, SkipsBefore;
      var start := offset + 1;
      end, skipped := start, 0;
      NothingSkipped(content[start..end]);
      while end < |content| && content[end] != QUOTE
        invariant start <= end <= |content|
        invariant Scan(content[start..]) == Shift(end - start, Scan(content[end..]))
        invariant Closed(content[start..end]) && skipped == Skipped(content[start..end])
      {
        ghost var p, was := content[start..end], end;
        ScanAt(content, end);
        if content[end] == BACKSLASH {
          if end + 1 >= |content| {
            return false, end, skipped;
          }
          skipped := skipped + 1;
          end := end + 1;
        }
        end := end + 1;
        ClosedGrows(p, content[was..end]);
        assert p + content[was..end] == content[start..end];
      }
      ScanAt(content, end);
      ok := end < |content|;
    }

    /** `utf16_literal_to_utf8`: bytes read from the literal (0 on failure) and bytes written. */
    method Utf16ToUtf8(input: nat, end: nat, out: array<byte>, at: nat) returns (taken: nat, written: nat)
      requires input < end <= |content|
      requires Utf16Literal(content[input..end]).Some? ==>
                 at + Utf8Length(Utf16Literal(content[input..end]).value.1) <= out.Length
      modifies out
      ensures match Utf16Literal(content[input..end])
              case None => taken == 0 && out[..] == old(out[..])
              case Some((k, n)) => taken == k && written == Utf8Length(n) &&
                                   out[..] == old(out[..at]) + Utf8(n) + old(out[at + Utf8Length(n)..])
    {
      hide Hex4, Nibbles, HexNumber, IsHex4, Utf8, Utf8Length;
      ghost var p := content[input..end];
      if end - input < 6 {
        return 0, 0;
      }
      SliceOfSlice(content, input, end, 2, 6);
      var first := ParseHex4(content[input + 2..input + 6]);
      if IsLowSurrogate(first) {
        return 0, 0;
      }
      var codepoint := first;
      taken := 6;
      if IsHighSurrogate(first) {
        var second := input + 6;
        if end - second < 6 {
          return 0, 0;
        }
        if content[second] != BACKSLASH || content[second + 1] != LETTER_U {
          return 0, 0;
        }
        SliceOfSlice(content, input, end, 8, 12);
        var low := ParseHex4(content[second + 2..second + 6]);
        if !IsLowSurrogate(low) {
          return 0, 0;
        }
        codepoint := 0x10000 + (first % 0x400) * 0x400 + low % 0x400;
        taken := 12;
      }
      EncodeUtf8(codepoint, out, at);
      written := Utf8Length(codepoint);
    }

    /** One round of the decoding loop: a plain byte, or the escape at `input`. The byte after a
        backslash that ends the literal is the closing quote. */
    method DecodeOne(input: nat, end: nat, output: array<byte>, at: nat) returns (ok: bool, taken: nat, written: nat)
      requires input < end < |content| && content[end] == QUOTE
      requires var step := DecodeStep(content[input..end]);
               step.Some? ==> at + |step.value.1| <= output.Length
      modifies output
      ensures match DecodeStep(content[input..end])
              case None => !ok
              case Some((k, out)) => ok && taken == k && written == |out| &&
                                     at + written <= output.Length && output[..at + written] == old(output[..at]) + out
    {
      ghost var p := content[input..end];
      ok, written := true, 1;
      if content[input] != BACKSLASH {
        output[at] := content[input];
        taken := 1;
        return;
      }
      taken := 2;
      var c := content[input + 1];
      assert |p| > 1 ==> c == p[1];
      if c == 98 {
        output[at] := BACKSPACE;
      } else if c == 102 {
        output[at] := FORM_FEED;
      } else if c == 110 {
        output[at] := NEWLINE;
      } else if c == 114 {
        output[at] := RETURN;
      } else if c == 116 {
        output[at] := TAB;
      } else if c == QUOTE || c == BACKSLASH || c == SLASH {
        output[at] := c;
      } else if c == LETTER_U {
        taken, written := Utf16ToUtf8(input, end, output, at);
        ok := taken != 0;
        if ok {
          assert output[..at + written] == old(output[..at]) + Utf8(Utf16Literal(p).value.1);
        }
      } else {
        ok := false;
      }
    }

    /** The decoding loop over the literal in `start..end`: the output with its terminator. Every index into `output` is
        within the size that the first scan computed. */
    method DecodeLiteral(start: nat, end: nat, skipped: nat) returns (r: Option<bytes>, input: nat)
      requires start <= end < |content| && content[end] == QUOTE
      requires Closed(content[start..end]) && skipped == Skipped(content[start..end])
      ensures r.None? <==> Decode(content[start..end]).None?
      ensures r.Some? ==> Decode(content[start..end]).value + [NUL] <= r.value
      ensures r.None? ==> input < end
    {
      hide DecodeStep, SkipsBefore, Decode, Closed, Resume, Drop;
      ghost var p := content[start..end];
      SpareGrows(p, 0);
      NothingYet(p);
      var output := new byte[end + 1 - start - skipped + 1];
      var at: nat := 0;
      input := start;
      while input < end
        invariant start <= input <= end + 1
        invariant at < output.Length == OutputSize(p)
        invariant Resume(output[..at], Decode(Drop(p, input - start))) == Decode(p)
        invariant at + SkipsBefore(p, Min(input - start, |p|)) <= Min(input - start, |p|)
      {
        ghost var i := input - start;
        DropIs(p, i);
        assert p[i..] == content[input..end];
        RoundFits(p, i, at);
        DecodeResumes(p, i, output[..at]);
        var ok, taken, written := DecodeOne(input, end, output, at);
        if !ok {
          return None, input;
        }
        input, at := input + taken, at + written;
      }
      output[at] := NUL;
      NothingLeft(Drop(p, input - start), output[..at]);
      assert output[..at] + [NUL] == output[..at + 1] <= output[..];
      r := Some(output[..]);
    }

    method ParseString() returns (r: Option<bytes>)
      requires Valid() && offset < |content|
      modifies this`offset
      ensures Valid()
      ensures match ParseSpec.ParseString(old(Rest()))
              case None => r.None?
              case Some((text, t)) => r == Some(text) && Rest() == t
    {
      hide Scan, Decode, Closed, SkipsBefore;
      ghost var s := Rest();
      if content[offset] != QUOTE {
        offset := offset + 1;
        return None;
      }
      var start := offset + 1;
      assert s[1..] == content[start..];
      var found, end, skipped := ScanString();
      if !found {
        offset := offset + 1;
        return None;
      }
      assert s == content[offset..|content|];
      SliceOfSlice(content, offset, |content|, 1, end - offset);
      assert s[1..1 + (end - start)] == content[start..end];
      assert s[end - offset + 1..] == content[end + 1..];
      var output, input := DecodeLiteral(start, end, skipped);
      if output.None? {
        offset := input;
        return None;
      }
      offset := end + 1;
      CStringBefore(Decode(content[start..end]).value, output.value);
      r := Some(CString(output.value));
    }

    method ParseNumber() returns (r: Option<real>)
      requires Valid() && offset < |content|
      modifies this`offset
      ensures Valid()
      ensures match ParseSpec.ParseNumber(old(Rest()))
              case None => r.None?
              case Some((x, t)) => r == Some(x) && Rest() == t
    {
      hide Strtod, NumberRun;
      ghost var s := Rest();
      var length: nat := 0;
      while offset + length < |content| && IsNumberByte(content[offset + length])
        invariant offset == old(offset) && offset + length <= |content|
        invariant NumberRun(s) == length + NumberRun(content[offset + length..])
      {
        NumberRunAt(content, offset + length);
        length := length + 1;
      }
      NumberRunAt(content, offset + length);
      NumberAt(content, offset, length);
      var number := Strtod(content[offset..offset + length]);
      match number
      case None =>
        r := None;
      case Some((x, used)) =>
        offset := offset + used;
        r := Some(x);
    }

    predicate LooksAt(w: bytes)
      requires Valid()
      reads this
    {
      offset + |w| <= |content| && content[offset..offset + |w|] == w
    }

    lemma LooksAtRest(w: bytes)
      requires Valid()
      ensures LooksAt(w) <==> w <= Rest()
      ensures LooksAt(w) ==> Rest()[|w|..] == content[offset + |w|..]
    {
      if offset + |w| <= |content| {
        assert Rest()[..|w|] == content[offset..offset + |w|];
      }
    }

    method ParseValue() returns (r: Option<Json>)
      requires Valid()
      modifies this
      ensures Valid()
      ensures Agrees(ParseSpec.ParseValue(old(Rest()), old(depth)), r)
      ensures r.Some? ==> offset > old(offset) && depth == old(depth)
      decreases |content| - offset, 1
    {
      hide ParseSpec.ParseArray, ParseSpec.ParseObject, ParseSpec.ParseString, ParseSpec.ParseNumber;
      ghost var s := Rest();
      LooksAtRest(NULL_TEXT);
      LooksAtRest(FALSE_TEXT);
      LooksAtRest(TRUE_TEXT);
      if LooksAt(NULL_TEXT) {
        offset := offset + 4;
        return Some(Null);
      }
      if LooksAt(FALSE_TEXT) {
        offset := offset + 5;
        return Some(False);
      }
      if LooksAt(TRUE_TEXT) {
        offset := offset + 4;
        return Some(True);
      }
      if offset >= |content| {
        return None;
      }
      var c := content[offset];
      assert s[0] == c;
      if c == QUOTE {
        var text := ParseString();
        return if text.Some? then Some(Str(text.value)) else None;
      }
      if c == MINUS || IsDigit(c) {
        var x := ParseNumber();
        return if x.Some? then Some(Number(x.value)) else None;
      }
      if c == LEFT_BRACKET {
        r := ParseArray();
      } else if c == LEFT_BRACE {
        r := ParseObject();
      } else {
        r := None;
      }
    }

    /** Steps to the first byte after an opening bracket and the blanks behind it. */
    method EnterList() returns (ok: bool)
      requires Valid() && offset < |content| && depth < ParseSpec.NESTING_LIMIT
      modifies this
      ensures Valid() && depth == old(depth) + 1
      ensures ok == (ParseSpec.SkipBlanks(old(Rest())[1..]) != [])
      ensures ok ==> offset > old(offset) && Rest() == ParseSpec.SkipBlanks(old(Rest())[1..])
    {
      depth := depth + 1;
      assert Rest()[1..] == content[offset + 1..];
      offset := offset + 1;
      SkipWhitespace();
      ok := offset < |content|;
      if !ok {
        offset := offset - 1;
      }
    }

    /** Steps behind a closing bracket. */
    method LeaveList()
      requires Valid() && offset < |content| && depth > 0
      modifies this
      ensures Valid() && depth == old(depth) - 1 && offset == old(offset) + 1 && Rest() == old(Rest())[1..]
    {
      depth := depth - 1;
      assert Rest()[1..] == content[offset + 1..];
      offset := offset + 1;
    }

    /** The byte before an element, the blanks and the element. */
    method ParseElement() returns (r: Option<Json>)
      requires Valid() && offset < |content|
      modifies this
      ensures Valid()
      ensures Agrees(ParseSpec.ParseValue(ParseSpec.SkipBlanks(old(content[offset + 1..])), old(depth)), r)
      ensures r.Some? ==> offset > old(offset) && depth == old(depth)
      decreases |content| - offset - 1, 2
    {
      hide ParseSpec.ParseValue, ParseSpec.SkipBlanks;
      offset := offset + 1;
      SkipWhitespace();
      r := ParseValue();
    }

    method ParseArray() returns (r: Option<Json>)
      requires Valid() && offset < |content| && content[offset] == LEFT_BRACKET
      modifies this
      ensures Valid()
      ensures Agrees(ParseSpec.ParseArray(old(Rest()), old(depth)), r)
      ensures r.Some? ==> offset > old(offset) && depth == old(depth)
      decreases |content| - offset, 0
    {
      hide ParseSpec.ParseValue, ParseSpec.SkipBlanks;
      if depth >= ParseSpec.NESTING_LIMIT {
        return None;
      }
      ghost var spec := ParseSpec.ParseArray(Rest(), depth);
      var ok := EnterList();
      if !ok {
        return None;
      }
      ghost var t := Rest();
      var items: seq<Json> := [];
      if content[offset] != RIGHT_BRACKET {
        offset := offset - 1;
        assert content[offset + 1..] == t;
        while true
          invariant Valid() && old(offset) <= offset < |content| && depth == old(depth) + 1
          invariant spec == ParseSpec.ParseItems(content[offset + 1..], depth, items)
          decreases |content| - offset
        {
          var v := ParseElement();
          if v.None? {
            return None;
          }
          items := items + [v.value];
          SkipWhitespace();
          assert offset < |content| ==> Rest()[1..] == content[offset + 1..];
          if offset >= |content| || content[offset] != COMMA {
            break;
          }
        }
        if offset >= |content| || content[offset] != RIGHT_BRACKET {
          return None;
        }
      }
      LeaveList();
      r := Some(Array(items));
    }

    method ParseMember() returns (r: Option<Member>)
      requires Valid() && offset + 1 < |content|
      modifies this
      ensures Valid()
      ensures match ParseSpec.ParseMember(old(content[offset + 1..]), old(depth))
              case None => r.None?
              case Some((m, t)) => r == Some(m) && Rest() == t
      ensures r.Some? ==> offset > old(offset) && depth == old(depth)
      decreases |content| - offset - 1, 2
    {
      hide ParseSpec.ParseValue, ParseSpec.ParseString, ParseSpec.SkipBlanks;
      offset := offset + 1;
      SkipWhitespace();
      var key := ParseString();
      if key.None? {
        return None;
      }
      SkipWhitespace();
      if offset >= |content| || content[offset] != COLON {
        return None;
      }
      assert Rest()[1..] == content[offset + 1..];
      offset := offset + 1;
      SkipWhitespace();
      var v := ParseValue();
      r := if v.Some? then Some(Member(key.value, v.value)) else None;
    }

    method ParseObject() returns (r: Option<Json>)
      requires Valid() && offset < |content| && content[offset] == LEFT_BRACE
      modifies this
      ensures Valid()
      ensures Agrees(ParseSpec.ParseObject(old(Rest()), old(depth)), r)
      ensures r.Some? ==> offset > old(offset) && depth == old(depth)
      decreases |content| - offset, 0
    {
      hide ParseSpec.ParseMember, ParseSpec.SkipBlanks;
      if depth >= ParseSpec.NESTING_LIMIT {
        return None;
      }
      ghost var spec := ParseSpec.ParseObject(Rest(), depth);
      var ok := EnterList();
      if !ok {
        return None;
      }
      ghost var t := Rest();
      var members: seq<Member> := [];
      if content[offset] != RIGHT_BRACE {
        offset := offset - 1;
        assert content[offset + 1..] == t;
        while true
          invariant Valid() && old(offset) <= offset < |content| && depth == old(depth) + 1
          invariant spec == ParseSpec.ParseMembers(content[offset + 1..], depth, members)
          decreases |content| - offset
        {
          if offset + 1 >= |content| {
            return None;
          }
          var m := ParseMember();
          if m.None? {
            return None;
          }
          members := members + [m.value];
          SkipWhitespace();
          assert offset < |content| ==> Rest()[1..] == content[offset + 1..];
          if offset >= |content| || content[offset] != COMMA {
            break;
          }
        }
        if offset >= |content| || content[offset] != RIGHT_BRACE {
          return None;
        }
      }
      LeaveList();
      r := Some(Object(members));
    }
  }

  /** `cJSON_ParseWithLengthOpts`: the value and where reading stopped, or the place of the error,
      which is always inside the text. */
  method ParseWithLength(text: bytes, terminated: bool) returns (r: Option<Json>, end: nat)
    ensures match ParseSpec.ParseBuffer(text, terminated)
            case None => r.None? && (end < |text| || text == [])
            case Some((v, t)) => r == Some(v) && end <= |text| && text[end..] == t
  {
    hide ParseSpec.ParseValue, ParseSpec.SkipBlanks;
    if |text| == 0 {
      return None, 0;
    }
    var buffer := new ParseBuffer(text);
    if |text| > 4 && text[..3] == ParseSpec.BOM {
      buffer.offset := 3;
    }
    assert buffer.Rest() == ParseSpec.SkipBom(text);
    buffer.SkipWhitespace();
    r := buffer.ParseValue();
    if r.Some? && terminated {
      buffer.SkipWhitespace();
      if buffer.offset >= |text| || text[buffer.offset] != NUL {
        r := None;
      }
    }
    end := if r.Some? || buffer.offset < |text| then buffer.offset else |text| - 1;
  }
}
