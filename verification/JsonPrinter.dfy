/** The printer of cJSON.c: a buffer that grows, or must not, and the functions that print a tree
    into it. */
module JsonPrinter {

  import opened CStrings
  import opened JsonTree
  import opened JsonText
  import opened Options
  import opened Sequences

  const INT_MAX: nat := 0x7FFF_FFFF
  const DEFAULT_BUFFER_SIZE: nat := 256

  // ----- strings -----

  lemma {:induction false} EscapeAllAppend(s: string, c: char)
    ensures EscapeAll(s + [c]) == EscapeAll(s) + Escape(c)
  {
    if s == [] {
      assert [c][1..] == "";
      assert EscapeAll([c]) == Escape(c) + "";
    } else {
      assert (s + [c])[1..] == s[1..] + [c];
      EscapeAllAppend(s[1..], c);
      Associative(Escape(s[0]), EscapeAll(s[1..]), Escape(c));
    }
  }

  /** The additional characters that the first pass counts. */
  method CountEscapes(input: string) returns (escapeCharacters: nat)
    requires NulFree(input)
    ensures |input| + escapeCharacters == |EscapeAll(input)|
    ensures escapeCharacters == 0 ==> EscapeAll(input) == input
  {
    hide EscapeAll;
    escapeCharacters := 0;
    var i := 0;
    assert EscapeAll(input[..0]) == input[..0] by { Nothing(input); }
    while i < |input|
      invariant 0 <= i <= |input|
      invariant i + escapeCharacters == |EscapeAll(input[..i])|
      invariant escapeCharacters == 0 ==> EscapeAll(input[..i]) == input[..i]
    {
      EscapeAllAppend(input[..i], input[i]);
      assert input[..i + 1] == input[..i] + [input[i]];
      var c := input[i];
      if c == '"' || c == '\\' || c == 8 as char || c == 12 as char || c == '\n' || c == '\r' || c == '\t' {
        escapeCharacters := escapeCharacters + 1;
      } else if c as int < 32 {
        escapeCharacters := escapeCharacters + 5;
      }
      i := i + 1;
    }
    assert input[..i] == input;
  }

  lemma Nothing(input: string)
    ensures EscapeAll(input[..0]) == input[..0]
  {
  }

  class PrintBuffer {
    var buffer: array<char>
    var length: nat
    var offset: nat
    var depth: nat
    const noalloc: bool
    const format: bool

    constructor (space: array<char>, noalloc: bool, format: bool)
      requires space.Length <= INT_MAX
      ensures Written("") && buffer == space && length == space.Length && depth == 0
      ensures this.noalloc == noalloc && this.format == format
    {
      buffer, length := space, space.Length;
      offset, depth := 0, 0;
      this.noalloc, this.format := noalloc, format;
    }

    ghost predicate Valid()
      reads `buffer, `length, `offset
    {
      buffer.Length == length <= INT_MAX && (offset < length || (length == 0 && offset == 0))
    }

    /** The text `s` is printed, and the offset behind it. */
    ghost predicate Written(s: string)
      reads `buffer, `length, `offset, buffer
    {
      Valid() && offset == |s| && buffer[..offset] == s
    }

    /** The text `s` is printed and terminated; the offset may be behind by its last part. */
    ghost predicate Holds(s: string)
      reads `buffer, `length, `offset, buffer
    {
      Valid() && offset <= |s| < length && buffer[..|s|] == s && buffer[|s|] == NUL && NulFree(s)
    }

    /** How many bytes the buffer can have. */
    ghost function Limit(): nat
      reads `length
    {
      if noalloc then length else INT_MAX
    }

    /** Room for `needed` bytes and one more. */
    method Ensure(needed: nat, ghost s: string) returns (ok: bool)
      requires Written(s)
      modifies `buffer, `length
      ensures Written(s) && Limit() == old(Limit()) && (buffer == old(buffer) || (!noalloc && fresh(buffer)))
      ensures ok <==> offset + needed + 1 <= Limit()
      ensures ok ==> offset + needed + 1 <= length
    {
      if needed > INT_MAX {
        return false;
      }
      var n := needed + offset + 1;
      if n <= length {
        return true;
      }
      if noalloc {
        return false;
      }
      var newsize: nat;
      if n > INT_MAX / 2 {
        if n <= INT_MAX {
          newsize := INT_MAX;
        } else {
          return false;
        }
      } else {
        newsize := n * 2;
      }
      var newbuffer := new char[newsize];
      for i := 0 to length
        modifies newbuffer
        invariant newbuffer[..i] == buffer[..i]
      {
        newbuffer[i] := buffer[i];
      }
      assert newbuffer[..offset] == newbuffer[..length][..offset] == buffer[..offset];
      length := newsize;
      buffer := newbuffer;
      return true;
    }

    /** Writing `s` from position `pos` on. */
    method Put(pos: nat, s: string)
      requires pos + |s| <= buffer.Length
      modifies buffer
      ensures buffer[..] == old(buffer[..pos]) + s + old(buffer[pos + |s|..])
    {
      for i := 0 to |s|
        invariant buffer[..pos] == old(buffer[..pos])
        invariant buffer[pos..pos + i] == s[..i]
        invariant buffer[pos + i..] == old(buffer[pos + i..])
      {
        buffer[pos + i] := s[i];
      }
    }

    /** Writing `t` behind the text and moving on. */
    method Write(t: string, ghost s: string)
      requires Written(s) && |s| + |t| < length
      modifies `offset, buffer
      ensures Written(s + t)
    {
      Put(offset, t);
      offset := offset + |t|;
    }

    /** Writing `t` and its terminator behind the text. */
    method WriteLast(t: string, ghost s: string)
      requires Written(s) && |s| + |t| < length && NulFree(s) && NulFree(t)
      modifies buffer
      ensures Holds(s + t)
    {
      Put(offset, t + [NUL]);
      assert buffer[..|s| + |t|] == s + t;
    }

    method UpdateOffset(ghost s: string)
      requires Holds(s)
      modifies `offset
      ensures Written(s)
    {
      while buffer[offset] != NUL
        invariant Holds(s)
        decreases |s| - offset
      {
        offset := offset + 1;
      }
      if offset < |s| { NotTheEnd(s); }
    }

    lemma NotTheEnd(s: string)
      requires Holds(s) && offset < |s|
      ensures buffer[offset] != NUL
    {
      assert buffer[..|s|][offset] == s[offset];
    }

    method PrintStringPtr(input: string, ghost s: string) returns (ok: bool)
      requires Written(s) && NulFree(s) && NulFree(input)
      modifies `buffer, `length, buffer
      ensures Limit() == old(Limit()) && (buffer == old(buffer) || (!noalloc && fresh(buffer)))
      ensures ok <==> |s| + |Quote(input)| + 2 <= Limit()
      ensures ok ==> Holds(s + Quote(input))
    {
      hide EscapeAll, Escape, NulFree, Quote, PrintBuffer.Holds, PrintBuffer.Limit;
      var escapeCharacters := CountEscapes(input);
      QuoteNulFree(input);
      assert Quote(input) == "\"" + EscapeAll(input) + "\"" by { QuoteIs(input); }
      var outputLength := |input| + escapeCharacters;
      ok := Ensure(outputLength + 3, s);
      if ok {
        if escapeCharacters == 0 {
          WriteLast("\"" + input + "\"", s);
        } else {
          WriteQuoted(input, s);
        }
      }
    }

    lemma QuoteIs(input: string)
      ensures Quote(input) == "\"" + EscapeAll(input) + "\""
    {
    }

    method WriteQuoted(input: string, ghost s: string)
      requires Written(s) && |s| + |Quote(input)| < length && NulFree(s) && NulFree(input)
      modifies buffer
      ensures Holds(s + Quote(input))
    {
      hide EscapeAll, Escape, NulFree;
      QuoteNulFree(input);
      NulFreeConcat(s, Quote(input));
      Put(offset, "\"");
      var p := PutEscaped(input, offset + 1, s + "\"");
      Put(p, "\"" + [NUL]);
      assert buffer[..p + 1] == s + Quote(input);
    }

    /** The second pass over a string: every character is copied or escaped. */
    method PutEscaped(input: string, start: nat, ghost s: string) returns (p: nat)
      requires start == |s| && start + |EscapeAll(input)| <= buffer.Length && buffer[..start] == s
      modifies buffer
      ensures p == start + |EscapeAll(input)| && buffer[..p] == s + EscapeAll(input)
    {
      hide EscapeAll, Escape;
      p := start;
      var i := 0;
      Nothing(input);
      while i < |input|
        modifies buffer
        invariant 0 <= i <= |input|
        invariant p == start + |EscapeAll(input[..i])|
        invariant p + |EscapeAll(input[i..])| == start + |EscapeAll(input)|
        invariant buffer[..p] == s + EscapeAll(input[..i])
      {
        assert input[..i + 1] == input[..i] + [input[i]];
        EscapeAllAppend(input[..i], input[i]);
        FirstEscape(input, i);
        Associative(s, EscapeAll(input[..i]), Escape(input[i]));
        Put(p, Escape(input[i]));
        p := p + |Escape(input[i])|;
        i := i + 1;
      }
      assert input[..i] == input;
      assert input[i..] == input[..0];
    }

    /** `ensure`, and a text that has no escapes. */
    method PrintPlain(t: string, ghost s: string) returns (ok: bool)
      requires Written(s) && NulFree(s) && NulFree(t)
      modifies `buffer, `length, buffer
      ensures Limit() == old(Limit()) && (buffer == old(buffer) || (!noalloc && fresh(buffer)))
      ensures ok <==> |s| + |t| + 2 <= Limit()
      ensures ok ==> Holds(s + t)
    {
      ok := Ensure(|t| + 1, s);
      if ok {
        WriteLast(t, s);
      }
    }

    method PrintNumber(number: string, ghost s: string) returns (ok: bool)
      requires Written(s) && NulFree(s) && NulFree(number)
      modifies `buffer, `length, `offset, buffer
      ensures Limit() == old(Limit()) && (buffer == old(buffer) || (!noalloc && fresh(buffer)))
      ensures ok <==> |number| <= NUMBER_LENGTH && |s| + |number| + 2 <= Limit()
      ensures ok ==> Holds(s + number)
    {
      if |number| > NUMBER_LENGTH {
        return false;
      }
      ok := PrintPlain(number, s);
      if ok {
        offset := offset + |number|;
      }
    }

    method PrintValue(t: Json, token: real -> string, ghost s: string) returns (ok: bool)
      requires Written(s) && NulFree(s) && Terminated(t, token)
      modifies this, buffer
      ensures Limit() == old(Limit()) && (buffer == old(buffer) || (!noalloc && fresh(buffer)))
      ensures ok <==> Printable(t, token) && |s| + |Text(t, old(depth), format, token)| + 2 <= Limit()
      ensures ok ==> Holds(s + Text(t, old(depth), format, token)) && depth == old(depth)
      decreases t, 0
    {
      hide PrintBuffer.Written, PrintBuffer.Holds, PrintBuffer.Limit, NulFree, ItemsText, MembersText, Quote;
      match t
      case Null => ok := PrintPlain("null", s);
      case False => ok := PrintPlain("false", s);
      case True => ok := PrintPlain("true", s);
      case Number(_, d) => ok := PrintNumber(token(d), s);
      case Raw(r) => ok := PrintPlain(r, s);
      case String(v) => ok := PrintStringPtr(v, s);
      case Array(xs) => ok := PrintArray(xs, token, s);
      case Object(ms) => ok := PrintObject(ms, token, s);
      case Invalid => ok := false;
    }

    method PrintArray(xs: seq<Json>, token: real -> string, ghost s: string) returns (ok: bool)
      requires Written(s) && NulFree(s) && ItemsTerminated(xs, token)
      modifies this, buffer
      ensures Limit() == old(Limit()) && (buffer == old(buffer) || (!noalloc && fresh(buffer)))
      ensures ok <==> ItemsPrintable(xs, token) && |s| + |ItemsText(xs, old(depth) + 1, format, token)| + 4 <= Limit()
      ensures ok ==> Holds(s + ("[" + ItemsText(xs, old(depth) + 1, format, token) + "]")) && depth == old(depth)
      decreases xs, 1
    {
      hide PrintBuffer.Written, PrintBuffer.Holds, PrintBuffer.Limit, NulFree, Text, Terminated, Printable, ItemsText;
      ok := Ensure(1, s);
      if !ok {
        return;
      }
      WrittenIsShort(s);
      Write("[", s);
      depth := depth + 1;
      ghost var all := s + "[";
      NulFreeSymbols();
      NulFreeConcat(s, "[");
      ghost var text := ItemsText(xs, depth, format, token);
      var i := 0;
      while i < |xs|
        invariant 0 <= i <= |xs| && depth == old(depth) + 1 && Limit() == old(Limit()) && (buffer == old(buffer) || (!noalloc && fresh(buffer)))
        invariant Written(all) && NulFree(all)
        invariant ItemsTerminated(xs[i..], token) && (ItemsPrintable(xs, token) <==> ItemsPrintable(xs[i..], token))
        invariant all + ItemsText(xs[i..], depth, format, token) == s + "[" + text
      {
        ItemsStep(xs, i, depth, format, token);
        ok := PrintItem(xs[i], i + 1 == |xs|, token, all);
        if !ok {
          return;
        }
        ghost var item := Text(xs[i], depth, format, token) + if i + 1 == |xs| then "" else Separator(format);
        Associative(all, item, ItemsText(xs[i + 1..], depth, format, token));
        all := all + item;
        i := i + 1;
      }
      assert all == s + "[" + text by { NoItems(xs, depth, format, token); }
      ok := PrintPlain("]", all);
      depth := depth - 1;
      assert s + "[" + text + "]" == s + ("[" + text + "]");
    }

    /** The body of the loop: an item, and the separator unless it is the last one. */
    method PrintItem(x: Json, last: bool, token: real -> string, ghost s: string) returns (ok: bool)
      requires Written(s) && NulFree(s) && Terminated(x, token)
      modifies this, buffer
      ensures Limit() == old(Limit()) && (buffer == old(buffer) || (!noalloc && fresh(buffer)))
      ensures var item := Text(x, old(depth), format, token) + if last then "" else Separator(format);
        && (ok <==> Printable(x, token) && |s| + |item| + 2 <= Limit())
        && (ok ==> Written(s + item) && NulFree(s + item) && depth == old(depth))
      decreases x, 1
    {
      hide PrintBuffer.Limit, NulFree, Text, Terminated, Printable;
      ghost var text := Text(x, depth, format, token);
      ok := PrintValue(x, token, s);
      if !ok {
        return;
      }
      UpdateOffset(s + text);
      TextNulFree(x, depth, format, token);
      NulFreeConcat(s, text);
      if !last {
        var length := if format then 2 else 1;
        ok := Ensure(length + 1, s + text);
        if !ok {
          return;
        }
        assert NulFree(Separator(format)) by { NulFreeSymbols(); }
        WriteLast(Separator(format), s + text);
        offset := offset + length;
        NulFreeConcat(s + text, Separator(format));
        Associative(s, text, Separator(format));
      } else {
        assert text + "" == text;
      }
    }

    method PrintObject(ms: seq<Member>, token: real -> string, ghost s: string) returns (ok: bool)
      requires Written(s) && NulFree(s) && MembersTerminated(ms, token)
      modifies this, buffer
      ensures Limit() == old(Limit()) && (buffer == old(buffer) || (!noalloc && fresh(buffer)))
      ensures ok <==> MembersPrintable(ms, token) && |s| + |Text(Object(ms), old(depth), format, token)| + 2 <= Limit()
      ensures ok ==> Holds(s + Text(Object(ms), old(depth), format, token)) && depth == old(depth)
      decreases ms, 1
    {
      hide PrintBuffer.Holds, PrintBuffer.Limit, NulFree, MembersText, MembersTerminated, MembersPrintable, Text;
      var length := if format then 2 else 1;
      ghost var text := MembersText(ms, depth + 1, format, token);
      ghost var close := (if format then Tabs(depth) else "") + "}";
      ObjectText(ms, depth, format, token);
      ok := Ensure(length + 1, s);
      if !ok {
        return;
      }
      Write(Opening(format), s);
      depth := depth + 1;
      NulFreeSymbols();
      NulFreeConcat(s, Opening(format));
      ok := PrintMembers(ms, token, s + Opening(format));
      if !ok {
        return;
      }
      ok := PrintClosing(s + Opening(format) + text);
      assert s + Opening(format) + text + close == s + (Opening(format) + text + close);
    }

    method PrintMembers(ms: seq<Member>, token: real -> string, ghost s: string) returns (ok: bool)
      requires Written(s) && NulFree(s) && MembersTerminated(ms, token)
      modifies this, buffer
      ensures Limit() == old(Limit()) && (buffer == old(buffer) || (!noalloc && fresh(buffer)))
      ensures var text := MembersText(ms, old(depth), format, token);
        && (ok <==> MembersPrintable(ms, token) && (ms == [] || |s| + |text| + 2 <= Limit()))
        && (ok ==> Written(s + text) && NulFree(s + text) && depth == old(depth))
      decreases ms, 0
    {
      hide PrintBuffer.Written, PrintBuffer.Holds, PrintBuffer.Limit, NulFree, Terminated, Printable, MembersText, Text;
      ghost var all := s;
      var i := 0;
      ok := true;
      while i < |ms|
        invariant 0 <= i <= |ms| && depth == old(depth) && Limit() == old(Limit()) && (buffer == old(buffer) || (!noalloc && fresh(buffer)))
        invariant ok && Written(all) && NulFree(all) && (i == 0 || |all| + 2 <= Limit())
        invariant MembersTerminated(ms[i..], token) && (MembersPrintable(ms, token) <==> MembersPrintable(ms[i..], token))
        invariant all + MembersText(ms[i..], depth, format, token) == s + MembersText(ms, depth, format, token)
      {
        MembersStep(ms, i, depth, format, token);
        ok := PrintMember(ms[i], i + 1 == |ms|, token, all);
        if !ok {
          return;
        }
        ghost var member := MemberText(ms[i], i + 1 == |ms|, depth, format, token);
        Associative(all, member, MembersText(ms[i + 1..], depth, format, token));
        all := all + member;
        i := i + 1;
      }
      assert all == s + MembersText(ms, depth, format, token) by { NoMembers(ms, depth, format, token); }
    }

    /** The body of the loop: indentation, key, colon, value, comma and line end. */
    method PrintMember(m: Member, last: bool, token: real -> string, ghost s: string) returns (ok: bool)
      requires Written(s) && NulFree(s) && NulFree(m.key) && Terminated(m.value, token)
      modifies this, buffer
      ensures Limit() == old(Limit()) && (buffer == old(buffer) || (!noalloc && fresh(buffer)))
      ensures var member := MemberText(m, last, old(depth), format, token);
        && (ok <==> Printable(m.value, token) && |s| + |member| + 2 <= Limit())
        && (ok ==> Written(s + member) && NulFree(s + member) && depth == old(depth))
      decreases m.value, 1
    {
      hide PrintBuffer.Limit, PrintBuffer.Written, PrintBuffer.Holds, NulFree, Text, Terminated, Printable, Head, Foot;
      ghost var head, text, foot := Head(m.key, depth, format), Text(m.value, depth, format, token), Foot(last, format);
      ok := PrintHead(m.key, s);
      if !ok {
        return;
      }
      ok := PrintValue(m.value, token, s + head);
      if !ok {
        return;
      }
      UpdateOffset(s + head + text);
      TextNulFree(m.value, depth, format, token);
      NulFreeConcat(s + head, text);
      ok := PrintFoot(last, s + head + text);
      assert s + head + text + foot == s + (head + text + foot);
    }

    method PrintFoot(last: bool, ghost s: string) returns (ok: bool)
      requires Written(s) && NulFree(s)
      modifies `buffer, `length, `offset, buffer
      ensures Limit() == old(Limit()) && (buffer == old(buffer) || (!noalloc && fresh(buffer)))
      ensures ok <==> |s| + |Foot(last, format)| + 2 <= Limit()
      ensures ok ==> Written(s + Foot(last, format)) && NulFree(s + Foot(last, format))
    {
      FootNulFree(last, format);
      NulFreeConcat(s, Foot(last, format));
      var length := (if format then 1 else 0) + (if last then 0 else 1);
      ok := Ensure(length + 1, s);
      if ok {
        WriteLast(Foot(last, format), s);
        offset := offset + length;
      }
    }

    method PrintHead(key: string, ghost s: string) returns (ok: bool)
      requires Written(s) && NulFree(s) && NulFree(key)
      modifies `buffer, `length, `offset, buffer
      ensures Limit() == old(Limit()) && (buffer == old(buffer) || (!noalloc && fresh(buffer)))
      ensures ok <==> |s| + |Head(key, depth, format)| + 1 <= Limit()
      ensures ok ==> Written(s + Head(key, depth, format)) && NulFree(s + Head(key, depth, format))
    {
      hide PrintBuffer.Limit, NulFree, Quote;
      ghost var all := s;
      HeadNulFree(key, depth, format);
      NulFreeConcat(s, Head(key, depth, format));
      if format {
        ok := Ensure(depth, s);
        if !ok {
          return;
        }
        TabsNulFree(depth);
        NulFreeConcat(s, Tabs(depth));
        Write(Tabs(depth), s);
        all := s + Tabs(depth);
      }
      ok := PrintStringPtr(key, all);
      if !ok {
        return;
      }
      UpdateOffset(all + Quote(key));
      ok := Ensure(if format then 2 else 1, all + Quote(key));
      if !ok {
        return;
      }
      Write(if format then ":\t" else ":", all + Quote(key));
      assert all + Quote(key) + (if format then ":\t" else ":") == s + Head(key, depth, format);
    }

    method PrintClosing(ghost s: string) returns (ok: bool)
      requires Written(s) && NulFree(s) && depth > 0
      modifies this, buffer
      ensures Limit() == old(Limit()) && (buffer == old(buffer) || (!noalloc && fresh(buffer)))
      ensures var close := (if format then Tabs(old(depth) - 1) else "") + "}";
        && (ok <==> |s| + |close| + 2 <= Limit())
        && (ok ==> Holds(s + close) && depth == old(depth) - 1)
    {
      hide PrintBuffer.Limit, NulFree;
      ghost var close := (if format then Tabs(depth - 1) else "") + "}";
      ok := Ensure(if format then depth + 1 else 2, s);
      if !ok {
        return;
      }
      TabsNulFree(depth - 1);
      assert NulFree(close) by { ClosingNulFree(depth - 1, format); }
      WriteLast(if format then Tabs(depth - 1) + "}" else "}", s);
      assert close == if format then Tabs(depth - 1) + "}" else "}";
      depth := depth - 1;
    }

    lemma WrittenIsShort(s: string)
      requires Written(s)
      ensures Valid() && |s| == offset
    {
    }
  }

  lemma NulFreeSymbols()
    ensures NulFree("[") && NulFree("]") && NulFree("}") && forall format :: NulFree(Separator(format)) && NulFree(Opening(format))
  {
  }

  lemma TabsNulFree(n: nat)
    ensures NulFree(Tabs(n))
  {
  }

  lemma ClosingNulFree(n: nat, format: bool)
    ensures NulFree((if format then Tabs(n) else "") + "}")
  {
  }

  function MemberText(m: Member, last: bool, depth: nat, format: bool, token: real -> string): string {
    Head(m.key, depth, format) + Text(m.value, depth, format, token) + Foot(last, format)
  }

  lemma ObjectText(ms: seq<Member>, depth: nat, format: bool, token: real -> string)
    ensures Text(Object(ms), depth, format, token)
         == Opening(format) + MembersText(ms, depth + 1, format, token) + ((if format then Tabs(depth) else "") + "}")
  {
    Associative(Opening(format) + MembersText(ms, depth + 1, format, token), if format then Tabs(depth) else "", "}");
  }

  lemma NoMembers(ms: seq<Member>, depth: nat, format: bool, token: real -> string)
    ensures MembersText(ms[|ms|..], depth, format, token) == ""
  {
  }

  lemma MembersStep(ms: seq<Member>, i: nat, depth: nat, format: bool, token: real -> string)
    requires i < |ms|
    ensures MembersText(ms[i..], depth, format, token)
         == MemberText(ms[i], i + 1 == |ms|, depth, format, token) + MembersText(ms[i + 1..], depth, format, token)
    ensures MembersTerminated(ms[i..], token) <==> NulFree(ms[i].key) && Terminated(ms[i].value, token) && MembersTerminated(ms[i + 1..], token)
    ensures MembersPrintable(ms[i..], token) <==> Printable(ms[i].value, token) && MembersPrintable(ms[i + 1..], token)
  {
    hide NulFree, Text, Head, Foot, Terminated, Printable;
    assert ms[i..][1..] == ms[i + 1..];
  }

  lemma NoItems(xs: seq<Json>, depth: nat, format: bool, token: real -> string)
    ensures ItemsText(xs[|xs|..], depth, format, token) == ""
  {
  }

  lemma ItemsStep(xs: seq<Json>, i: nat, depth: nat, format: bool, token: real -> string)
    requires i < |xs|
    ensures ItemsText(xs[i..], depth, format, token)
         == Text(xs[i], depth, format, token) + (if i + 1 == |xs| then "" else Separator(format)) + ItemsText(xs[i + 1..], depth, format, token)
    ensures ItemsTerminated(xs[i..], token) <==> Terminated(xs[i], token) && ItemsTerminated(xs[i + 1..], token)
    ensures ItemsPrintable(xs[i..], token) <==> Printable(xs[i], token) && ItemsPrintable(xs[i + 1..], token)
  {
    assert xs[i..][1..] == xs[i + 1..];
  }

  lemma FirstEscape(input: string, i: nat)
    requires i < |input|
    ensures |EscapeAll(input[i..])| == |Escape(input[i])| + |EscapeAll(input[i + 1..])|
  {
    assert input[i..][1..] == input[i + 1..];
  }

  // ----- the entry points -----

  /** `cJSON_Print` and `cJSON_PrintUnformatted`. */
  method Print(item: Json, format: bool, token: real -> string) returns (printed: Option<string>)
    requires Terminated(item, token)
    ensures var text := Text(item, 0, format, token);
      printed == if Printable(item, token) && |text| + 2 <= INT_MAX then Some(text) else None
  {
    printed := PrintBuffered(item, DEFAULT_BUFFER_SIZE, format, token);
  }

  /** `cJSON_PrintBuffered`: the first size of the buffer makes no difference. */
  method PrintBuffered(item: Json, prebuffer: int, format: bool, token: real -> string) returns (printed: Option<string>)
    requires prebuffer <= INT_MAX && Terminated(item, token)
    ensures var text := Text(item, 0, format, token);
      printed == if prebuffer >= 0 && Printable(item, token) && |text| + 2 <= INT_MAX then Some(text) else None
  {
    hide Text, Printable, Terminated;
    if prebuffer < 0 {
      return None;
    }
    var space := new char[prebuffer];
    var p := new PrintBuffer(space, false, format);
    var ok := p.PrintValue(item, token, "");
    if !ok {
      return None;
    }
    ghost var text := Text(item, 0, format, token);
    assert "" + text == text;
    p.UpdateOffset(text);
    return Some(p.buffer[..p.offset]);
  }

  /** `cJSON_PrintPreallocated`: it needs two bytes more than the text, and then prints the same. */
  method PrintPreallocated(item: Json, buf: array<char>, len: int, format: bool, token: real -> string) returns (ok: bool)
    requires len < 0 || len == buf.Length <= INT_MAX
    requires Terminated(item, token)
    modifies buf
    ensures var text := Text(item, 0, format, token);
      && (ok <==> Printable(item, token) && |text| + 2 <= len)
      && (ok ==> buf[..|text|] == text && buf[|text|] == NUL)
  {
    hide Text, Printable, Terminated;
    if len < 0 {
      return false;
    }
    var p := new PrintBuffer(buf, true, format);
    ok := p.PrintValue(item, token, "");
    ghost var text := Text(item, 0, format, token);
    assert "" + text == text;
  }
}
