/** Printing into a buffer that grows in place, or that the caller has allocated. */
module Printer {
  import opened Bytes
  import opened Json

  /** How many bytes escaping adds, as the first pass over a string counts them. */
  function EscapeExtra(b: byte): nat {
    if b == QUOTE || b == BACKSLASH then 1
    else if b == BACKSPACE || b == FORM_FEED || b == NEWLINE || b == RETURN || b == TAB then 1
    else if b < 32 then 5
    else 0
  }

  lemma {:induction false} EscapeAppend(s: bytes, i: nat)
    requires i < |s|
    ensures Escape(s[..i + 1]) == Escape(s[..i]) + EscapeByte(s[i])
    ensures |EscapeByte(s[i])| == 1 + EscapeExtra(s[i])
  {
    if i == 0 {
      assert s[..1] == [s[0]];
      assert Escape([s[0]]) == EscapeByte(s[0]) + Escape([]);
    } else {
      EscapeAppend(s[1..], i - 1);
      assert s[..i + 1][1..] == s[1..][..i];
      assert s[..i][1..] == s[1..][..i - 1];
    }
  }

  lemma QuotedText(before: bytes, s: bytes)
    ensures |Quoted(s)| == |Escape(s)| + 2
    ensures before + [QUOTE] + Escape(s) + [QUOTE, NUL] == before + (Quoted(s) + [NUL])
  {
    hide Escape;
  }

  lemma NothingEscaped(s: bytes)
    ensures Escape(s[..0]) == []
  {
    assert s[..0] == [];
  }

  lemma {:induction false} NoEscapes(s: bytes)
    requires |Escape(s)| == |s|
    ensures Escape(s) == s
  {
    if s != [] {
      EscapeLength(s[1..]);
      NoEscapes(s[1..]);
    }
  }

  lemma {:induction false} EscapeLength(s: bytes)
    ensures |Escape(s)| >= |s|
  {
    if s != [] {
      EscapeLength(s[1..]);
    }
  }

  lemma {:induction false} EscapedFits(s: bytes, i: nat)
    requires i <= |s|
    ensures |Escape(s[..i])| <= |Escape(s)|
    decreases |s| - i
  {
    hide EscapeByte, Escape;
    if i < |s| {
      EscapeAppend(s, i);
      EscapedFits(s, i + 1);
    } else {
      assert s[..i] == s;
    }
  }

  lemma QuotedIsNulFree(s: bytes)
    ensures NulFree(Quoted(s))
  {
    EscapeIsPrintable(s);
  }

  /** The first pass over a string. */
  method CountEscapes(s: bytes) returns (extra: nat)
    ensures |Escape(s)| == |s| + extra
  {
    hide EscapeByte, Escape;
    extra := 0;
    NothingEscaped(s);
    for i := 0 to |s|
      invariant |Escape(s[..i])| == i + extra
    {
      EscapeAppend(s, i);
      extra := extra + EscapeExtra(s[i]);
    }
    assert s[..|s|] == s;
  }

  class PrintBuffer {
    var buffer: array<byte>
    var offset: nat
    var depth: nat
    const noalloc: bool
    const format: bool

    ghost predicate Valid()
      reads this
    {
      buffer.Length <= INT_MAX && (offset < buffer.Length || (offset == 0 && buffer.Length == 0))
    }

    /** The most bytes the buffer can come to hold. */
    ghost function Limit(): int
      reads this
    {
      if noalloc then buffer.Length else INT_MAX
    }

    constructor (start: array<byte>, noalloc: bool, format: bool)
      requires start.Length <= INT_MAX
      ensures Valid() && offset == 0 && depth == 0
      ensures buffer == start && this.noalloc == noalloc && this.format == format
    {
      buffer, offset, depth := start, 0, 0;
      this.noalloc, this.format := noalloc, format;
    }

    /** Room for `needed` bytes and one more. What has been written stays where it is. */
    method Ensure(needed: nat) returns (ok: bool)
      requires Valid()
      modifies this`buffer
      ensures Valid() && (buffer == old(buffer) || (fresh(buffer) && !noalloc))
      ensures ok <==> offset + needed + 1 <= Limit()
      ensures ok ==> offset + needed + 1 <= buffer.Length
      ensures old(buffer.Length) <= buffer.Length && buffer[..offset] == old(buffer[..offset])
      ensures ok && offset + needed + 1 <= old(buffer.Length) ==> buffer == old(buffer)
      ensures ok && offset + needed + 1 > old(buffer.Length) ==>
                var total := offset + needed + 1;
                buffer.Length == if total > INT_MAX / 2 then INT_MAX else 2 * total
    {
      if buffer.Length > 0 && offset >= buffer.Length {
        return false;
      }
      if needed > INT_MAX {
        return false;
      }
      var total := needed + offset + 1;
      if total <= buffer.Length {
        return true;
      }
      if noalloc {
        return false;
      }
      var newSize;
      if total > INT_MAX / 2 {
        if total <= INT_MAX {
          newSize := INT_MAX;
        } else {
          return false;
        }
      } else {
        newSize := total * 2;
      }
      var bigger := new byte[newSize];
      for i := 0 to buffer.Length
        modifies bigger
        invariant bigger[..i] == buffer[..i]
      {
        bigger[i] := buffer[i];
      }
      assert bigger[..buffer.Length][..offset] == bigger[..offset];
      buffer := bigger;
      ok := true;
    }

    /** `strcpy`, `memcpy` and single stores at a place that has room for them. */
    method Store(at: nat, w: bytes)
      requires at + |w| <= buffer.Length
      modifies buffer
      ensures buffer[..at + |w|] == old(buffer[..at]) + w
    {
      for i := 0 to |w|
        invariant buffer[..at] == old(buffer[..at])
        invariant buffer[at..at + i] == w[..i]
      {
        buffer[at + i] := w[i];
      }
      assert buffer[..at + |w|] == buffer[..at] + buffer[at..at + |w|];
    }

    /** Adds the length of the C string at the offset. */
    method UpdateOffset(ghost n: nat)
      requires Valid() && offset + n < buffer.Length && buffer[offset + n] == NUL
      requires forall i :: offset <= i < offset + n ==> buffer[i] != NUL
      modifies this`offset
      ensures Valid() && offset == old(offset) + n
    {
      var length := 0;
      while buffer[offset + length] != NUL
        invariant 0 <= length <= n && offset == old(offset)
        decreases n - length
      {
        length := length + 1;
      }
      offset := offset + length;
    }

    /** After a print that began at `start`: the text and its NUL stand in the buffer, and the offset
        is somewhere between the two ends of the text. */
    ghost predicate Holds(before: bytes, text: bytes)
      reads this`offset, this`buffer, buffer
    {
      && |before| <= offset <= |before| + |text| < buffer.Length
      && buffer[..|before| + |text|] == before + text
      && buffer[|before| + |text|] == NUL
    }

    lemma HoldsTogether(before: bytes, front: bytes, w: bytes)
      requires Holds(before + front, w)
      ensures Holds(before, front + w)
    {
      assert before + (front + w) == before + front + w;
    }

    /** The offset moves to the end of the text. */
    method Advance(ghost before: bytes, ghost text: bytes)
      requires Valid() && Holds(before, text) && NulFree(text)
      modifies this`offset
      ensures Valid() && offset == |before| + |text| && buffer[..offset] == before + text
    {
      ghost var n := |before| + |text| - offset;
      assert forall i :: offset <= i < offset + n ==> buffer[..|before| + |text|][i] == (before + text)[i];
      UpdateOffset(n);
    }

    /** A short text and its NUL, with the offset left in front: `null`, `true`, `false`. */
    method PrintWord(w: bytes) returns (ok: bool)
      requires Valid()
      modifies this`buffer, buffer
      ensures Valid() && (buffer == old(buffer) || (fresh(buffer) && !noalloc))
      ensures ok <==> offset + |w| + 2 <= Limit()
      ensures ok ==> Holds(old(buffer[..offset]), w)
    {
      ok := Ensure(|w| + 1);
      if ok {
        Store(offset, w + [NUL]);
        LastIsNul(buffer[..offset + |w| + 1], old(buffer[..offset]), w);
      }
    }

    lemma LastIsNul(s: bytes, before: bytes, w: bytes)
      requires s == before + (w + [NUL])
      ensures s[|before| + |w|] == NUL && s[..|before| + |w|] == before + w
    {
    }

    method PrintNumber(n: int) returns (ok: bool)
      requires Valid() && INT_MIN <= n <= INT_MAX
      modifies this`buffer, this`offset, buffer
      ensures Valid() && (buffer == old(buffer) || (fresh(buffer) && !noalloc))
      ensures ok <==> old(offset) + |DecimalText(n)| + 2 <= Limit()
      ensures ok ==> Holds(old(buffer[..offset]), DecimalText(n)) && offset == old(offset) + |DecimalText(n)|
    {
      var text := DecimalText(n);
      ok := PrintWord(text);
      if ok {
        offset := offset + |text|;
      }
    }

    /** The escaped bytes of `s`, one byte of it at a time, from `start` on. */
    method WriteEscaped(s: bytes, start: nat)
      requires start + |Escape(s)| <= buffer.Length
      modifies buffer
      ensures buffer[..start + |Escape(s)|] == old(buffer[..start]) + Escape(s)
    {
      hide EscapeByte, Escape;
      ghost var before := buffer[..start];
      NothingEscaped(s);
      var at: nat := start;
      for i := 0 to |s|
        invariant at == start + |Escape(s[..i])| <= buffer.Length
        invariant buffer[..at] == before + Escape(s[..i])
      {
        EscapeAppend(s, i);
        EscapedFits(s, i + 1);
        Store(at, EscapeByte(s[i]));
        at := at + |EscapeByte(s[i])|;
      }
      assert s[..|s|] == s;
    }

    /** The quoted text and its NUL, copied whole when nothing in it needs escaping. */
    method WriteQuoted(s: bytes, extra: nat, start: nat)
      requires |Escape(s)| == |s| + extra && start + |s| + extra + 3 <= buffer.Length
      modifies buffer
      ensures buffer[..start + |Quoted(s)| + 1] == old(buffer[..start]) + (Quoted(s) + [NUL])
    {
      hide Quoted, Escape;
      QuotedText(buffer[..start], s);
      Store(start, [QUOTE]);
      if extra == 0 {
        NoEscapes(s);
        Store(start + 1, s);
      } else {
        WriteEscaped(s, start + 1);
      }
      Store(start + 1 + |s| + extra, [QUOTE, NUL]);
    }

    method PrintString(s: bytes) returns (ok: bool)
      requires Valid()
      modifies this`buffer, buffer
      ensures Valid() && (buffer == old(buffer) || (fresh(buffer) && !noalloc))
      ensures ok <==> offset + |Quoted(s)| + 2 <= Limit()
      ensures ok ==> Holds(old(buffer[..offset]), Quoted(s))
    {
      hide Quoted, Escape;
      QuotedText([], s);
      var extra := CountEscapes(s);
      ok := Ensure(|s| + extra + 3);
      if ok {
        WriteQuoted(s, extra, offset);
        LastIsNul(buffer[..offset + |Quoted(s)| + 1], old(buffer[..offset]), Quoted(s));
      }
    }

    /** Bytes of a list's frame, with the offset moved past them; `nul` adds a NUL behind. */
    method Emit(w: bytes, nul: bool) returns (ok: bool)
      requires Valid()
      modifies this`buffer, this`offset, buffer
      ensures Valid() && (buffer == old(buffer) || (fresh(buffer) && !noalloc))
      ensures ok <==> old(offset) + |w| + (if nul then 1 else 0) + 1 <= Limit()
      ensures ok ==> offset == old(offset) + |w| && buffer[..offset] == old(buffer[..offset]) + w
    {
      var all := if nul then w + [NUL] else w;
      ok := Ensure(|all|);
      if ok {
        ghost var before := buffer[..offset];
        Store(offset, all);
        assert buffer[..offset + |w|] == buffer[..offset + |all|][..offset + |w|];
        assert (before + all)[..offset + |w|] == before + w;
        offset := offset + |w|;
      }
    }

    method PrintValue(v: Json) returns (ok: bool)
      requires Valid()
      modifies this, buffer
      ensures Valid() && (buffer == old(buffer) || (fresh(buffer) && !noalloc))
      ensures ok <==> old(offset) + |Render(v, format, old(depth))| + 2 <= Limit()
      ensures ok ==> depth == old(depth) && Holds(old(buffer[..offset]), Render(v, format, old(depth)))
      decreases v, 3
    {
      match v
      case Null => ok := PrintWord(NULL_TEXT);
      case False => ok := PrintWord(FALSE_TEXT);
      case True => ok := PrintWord(TRUE_TEXT);
      case Number(x) => ok := PrintNumber(ValueInt(x));
      case Str(t) => ok := PrintString(t);
      case Array(items) => ok := PrintArray(v, items);
      case Object(members) => ok := PrintObject(v, members);
    }

    /** One round of the loop over elements: the element and what separates it from the next. */
    method PrintItem(v: Json, last: bool) returns (ok: bool)
      requires Valid()
      modifies this, buffer
      ensures Valid() && (buffer == old(buffer) || (fresh(buffer) && !noalloc))
      ensures !ok ==> old(offset) + |ItemText(v, last, format, old(depth))| + 2 > Limit()
      ensures ok ==> depth == old(depth) && offset == old(offset) + |ItemText(v, last, format, depth)| &&
                     buffer[..offset] == old(buffer[..offset]) + ItemText(v, last, format, depth)
      decreases v, 4
    {
      hide Render;
      ghost var before := buffer[..offset];
      ok := PrintValue(v);
      if ok {
        RenderBytes(v, format, depth);
        Advance(before, Render(v, format, depth));
        if !last {
          ok := Emit(ItemGap(format), true);
        }
      }
    }

    method PrintItems(v: Json, items: seq<Json>) returns (ok: bool)
      requires Valid() && v == Array(items)
      modifies this, buffer
      ensures Valid() && (buffer == old(buffer) || (fresh(buffer) && !noalloc))
      ensures !ok ==> old(offset) + |RenderItems(items, format, old(depth))| + 2 > Limit()
      ensures ok ==> depth == old(depth) && offset == old(offset) + |RenderItems(items, format, depth)| &&
                     buffer[..offset] == old(buffer[..offset]) + RenderItems(items, format, depth)
      decreases v, 0
    {
      hide RenderItems, ItemText;
      ghost var text := buffer[..offset] + RenderItems(items, format, depth);
      assert items[0..] == items;
      for i := 0 to |items|
        invariant Valid() && (buffer == old(buffer) || (fresh(buffer) && !noalloc)) && depth == old(depth)
        invariant buffer[..offset] + RenderItems(items[i..], format, depth) == text
      {
        ItemsFrame(items, i, format, depth);
        ok := PrintItem(items[i], i + 1 == |items|);
        if !ok {
          return;
        }
      }
      NoItems(items[|items|..], format, depth);
      ok := true;
    }

    /** The bracket and the elements, one level down. */
    method OpenArray(v: Json, items: seq<Json>) returns (ok: bool)
      requires Valid() && v == Array(items)
      modifies this, buffer
      ensures Valid() && (buffer == old(buffer) || (fresh(buffer) && !noalloc))
      ensures var front := [LEFT_BRACKET] + RenderItems(items, format, old(depth) + 1);
              if ok then depth == old(depth) + 1 && offset == old(offset) + |front| &&
                         buffer[..offset] == old(buffer[..offset]) + front
              else old(offset) + |front| + 2 > Limit()
      decreases v, 1
    {
      hide RenderItems;
      ok := Emit([LEFT_BRACKET], false);
      if !ok {
        return;
      }
      depth := depth + 1;
      ok := PrintItems(v, items);
    }

    method PrintArray(v: Json, items: seq<Json>) returns (ok: bool)
      requires Valid() && v == Array(items)
      modifies this, buffer
      ensures Valid() && (buffer == old(buffer) || (fresh(buffer) && !noalloc))
      ensures ok <==> old(offset) + |Render(v, format, old(depth))| + 2 <= Limit()
      ensures ok ==> depth == old(depth) && Holds(old(buffer[..offset]), Render(v, format, old(depth)))
      decreases v, 2
    {
      hide Render, RenderItems, Holds;
      ArrayFrame(items, format, depth);
      ghost var before := buffer[..offset];
      ok := OpenArray(v, items);
      if !ok {
        return;
      }
      ghost var front := [LEFT_BRACKET] + RenderItems(items, format, depth);
      ok := PrintWord([RIGHT_BRACKET]);
      depth := depth - 1;
      if ok {
        HoldsTogether(before, front, [RIGHT_BRACKET]);
        assert front + [RIGHT_BRACKET] == [LEFT_BRACKET] + (RenderItems(items, format, depth + 1) + [RIGHT_BRACKET]);
      }
    }

    /** Indentation, key and colon. */
    method PrintKey(key: bytes) returns (ok: bool)
      requires Valid()
      modifies this, buffer
      ensures Valid() && (buffer == old(buffer) || (fresh(buffer) && !noalloc)) && depth == old(depth)
      ensures !ok ==> old(offset) + |MemberHead(key, format, depth)| + 2 > Limit()
      ensures ok ==> offset == old(offset) + |MemberHead(key, format, depth)| &&
                     buffer[..offset] == old(buffer[..offset]) + MemberHead(key, format, depth)
    {
      hide Quoted;
      if format {
        ok := Emit(Repeat(TAB, depth), false);
        if !ok {
          return;
        }
      }
      ghost var before := buffer[..offset];
      ok := PrintString(key);
      if !ok {
        return;
      }
      QuotedIsNulFree(key);
      Advance(before, Quoted(key));
      ok := Emit(if format then [COLON, TAB] else [COLON], false);
    }

    /** One round of the loop over members. */
    method PrintMember(m: Member, last: bool) returns (ok: bool)
      requires Valid()
      modifies this, buffer
      ensures Valid() && (buffer == old(buffer) || (fresh(buffer) && !noalloc))
      ensures !ok ==> old(offset) + |MemberText(m, last, format, old(depth))| + 2 > Limit()
      ensures ok ==> depth == old(depth) && offset == old(offset) + |MemberText(m, last, format, depth)| &&
                     buffer[..offset] == old(buffer[..offset]) + MemberText(m, last, format, depth)
      decreases m
    {
      hide Render, MemberHead, MemberTail;
      ok := PrintKey(m.key);
      if !ok {
        return;
      }
      ghost var before := buffer[..offset];
      ok := PrintValue(m.value);
      if !ok {
        return;
      }
      RenderBytes(m.value, format, depth);
      Advance(before, Render(m.value, format, depth));
      ok := Emit(MemberTail(last, format), true);
    }

    method PrintMembers(v: Json, members: seq<Member>) returns (ok: bool)
      requires Valid() && v == Object(members)
      modifies this, buffer
      ensures Valid() && (buffer == old(buffer) || (fresh(buffer) && !noalloc))
      ensures !ok ==> old(offset) + |RenderMembers(members, format, old(depth))| + 2 > Limit()
      ensures ok ==> depth == old(depth) && offset == old(offset) + |RenderMembers(members, format, depth)| &&
                     buffer[..offset] == old(buffer[..offset]) + RenderMembers(members, format, depth)
      decreases v, 0
    {
      hide RenderMembers, MemberText;
      ghost var text := buffer[..offset] + RenderMembers(members, format, depth);
      assert members[0..] == members;
      for i := 0 to |members|
        invariant Valid() && (buffer == old(buffer) || (fresh(buffer) && !noalloc)) && depth == old(depth)
        invariant buffer[..offset] + RenderMembers(members[i..], format, depth) == text
      {
        MembersFrame(members, i, format, depth);
        ok := PrintMember(members[i], i + 1 == |members|);
        if !ok {
          return;
        }
      }
      NoMembers(members[|members|..], format, depth);
      ok := true;
    }

    /** The brace and the members, one level down. */
    method OpenObject(v: Json, members: seq<Member>) returns (ok: bool)
      requires Valid() && v == Object(members)
      modifies this, buffer
      ensures Valid() && (buffer == old(buffer) || (fresh(buffer) && !noalloc))
      ensures var front := ObjectOpen(format) + RenderMembers(members, format, old(depth) + 1);
              if ok then depth == old(depth) + 1 && offset == old(offset) + |front| &&
                         buffer[..offset] == old(buffer[..offset]) + front
              else old(offset) + |front| + 2 > Limit()
      decreases v, 1
    {
      hide RenderMembers, ObjectOpen;
      ok := Emit(ObjectOpen(format), true);
      if !ok {
        return;
      }
      depth := depth + 1;
      ok := PrintMembers(v, members);
    }

    method PrintObject(v: Json, members: seq<Member>) returns (ok: bool)
      requires Valid() && v == Object(members)
      modifies this, buffer
      ensures Valid() && (buffer == old(buffer) || (fresh(buffer) && !noalloc))
      ensures ok <==> old(offset) + |Render(v, format, old(depth))| + 2 <= Limit()
      ensures ok ==> depth == old(depth) && Holds(old(buffer[..offset]), Render(v, format, old(depth)))
      decreases v, 2
    {
      hide Render, RenderMembers, ObjectOpen, ObjectClose, Holds;
      ObjectFrame(members, format, depth);
      ghost var before, open, close := buffer[..offset], ObjectOpen(format), ObjectClose(format, depth);
      ok := OpenObject(v, members);
      if !ok {
        return;
      }
      ghost var front := open + RenderMembers(members, format, depth);
      ok := PrintWord(ObjectClose(format, depth - 1));
      depth := depth - 1;
      if ok {
        HoldsTogether(before, front, close);
        assert front + close == open + (RenderMembers(members, format, depth + 1) + close);
      }
    }
  }

  /** Printing into a buffer of the caller's: it works if and only if there is room for the text, its
      NUL and one byte more. */
  method PrintPreallocated(v: Json, buffer: array<byte>, format: bool) returns (ok: bool)
    requires buffer.Length <= INT_MAX
    modifies buffer
    ensures ok <==> buffer.Length >= |Render(v, format, 0)| + 2
    ensures ok ==> var n := |Render(v, format, 0)|;
                   buffer[..n] == Render(v, format, 0) && buffer[n] == NUL
  {
    var p := new PrintBuffer(buffer, true, format);
    ok := p.PrintValue(v);
    if ok {
      assert [] + Render(v, format, 0) == Render(v, format, 0);
    }
  }

  /** `cJSON_Print` and `cJSON_PrintUnformatted`: the text in a block of its own, or nothing if the
      text is too long for `int` sizes. */
  method Print(v: Json, format: bool) returns (ok: bool, printed: array<byte>)
    ensures ok <==> |Render(v, format, 0)| + 2 <= INT_MAX
    ensures ok ==> fresh(printed) && printed[..] == Render(v, format, 0) + [NUL]
  {
    hide Render;
    var start := new byte[256];
    var p := new PrintBuffer(start, false, format);
    printed := start;
    ok := p.PrintValue(v);
    if ok {
      ghost var text := Render(v, format, 0);
      RenderBytes(v, format, 0);
      p.Advance([], text);
      assert [] + text == text;
      printed := new byte[p.offset + 1];
      for i := 0 to p.offset
        invariant p.offset == |text| && p.buffer.Length > p.offset && p.buffer[..p.offset] == text
        invariant printed.Length == p.offset + 1 && fresh(printed) && printed != p.buffer
        invariant printed[..i] == text[..i]
      {
        assert p.buffer[..p.offset][i] == text[i];
        printed[i] := p.buffer[i];
      }
      printed[p.offset] := NUL;
      assert printed[..] == printed[..p.offset] + [NUL];
    }
  }
}
