// printf: a format-string interpreter, against a recursive rendering.
module Rendering {
  type Byte = c: int | 0 <= c < 256

  const PERCENT: Byte := 37
  const LOWER_C: Byte := 99
  const LOWER_S: Byte := 115
  const INT_MAX: int := 0x7FFF_FFFF

  datatype Arg = CharArg(c: Byte) | StringArg(s: seq<Byte>)

  // A C string without its terminator.
  predicate CString(s: seq<Byte>) {
    forall i :: 0 <= i < |s| ==> s[i] != 0
  }

  // s[i] in C, where the terminator may be read but nothing behind it.
  function CharAt(s: seq<Byte>, i: nat): Byte
    requires i <= |s|
  {
    if i < |s| then s[i] else 0
  }

  // There is an argument of the right kind for every conversion.
  predicate Sufficient(format: seq<Byte>, args: seq<Arg>)
    decreases |format|
  {
    if format == [] then true
    else if format[0] != PERCENT then Sufficient(format[1..], args)
    else if CharAt(format, 1) == PERCENT then Sufficient(format[2..], args)
    else if CharAt(format, 1) == LOWER_C then |args| > 0 && args[0].CharArg? && Sufficient(format[2..], args[1..])
    else if CharAt(format, 1) == LOWER_S then
      |args| > 0 && args[0].StringArg? && CString(args[0].s) && Sufficient(format[2..], args[1..])
    else true
  }

  // What the format stands for: %% is a percent sign, %c and %s are replaced,
  // and from an unknown or trailing % on the rest is copied verbatim.
  function Render(format: seq<Byte>, args: seq<Arg>): seq<Byte>
    requires Sufficient(format, args)
    decreases |format|
  {
    if format == [] then []
    else if format[0] != PERCENT then [format[0]] + Render(format[1..], args)
    else if CharAt(format, 1) == PERCENT then [PERCENT] + Render(format[2..], args)
    else if CharAt(format, 1) == LOWER_C then [args[0].c] + Render(format[2..], args[1..])
    else if CharAt(format, 1) == LOWER_S then args[0].s + Render(format[2..], args[1..])
    else format
  }

  // The rendering in numbers, one equation for each way a format can begin.
  lemma RenderLaws(rest: seq<Byte>, args: seq<Arg>, c: Byte, str: seq<Byte>)
    requires Sufficient(rest, args) && CString(str)
    ensures Sufficient([], args) && Render([], args) == []
    ensures c != 37 ==> Sufficient([c] + rest, args) && Render([c] + rest, args) == [c] + Render(rest, args)
    ensures Sufficient([37, 37] + rest, args) && Render([37, 37] + rest, args) == [37] + Render(rest, args)
    ensures Sufficient([37, 99] + rest, [CharArg(c)] + args)
      && Render([37, 99] + rest, [CharArg(c)] + args) == [c] + Render(rest, args)
    ensures Sufficient([37, 115] + rest, [StringArg(str)] + args)
      && Render([37, 115] + rest, [StringArg(str)] + args) == str + Render(rest, args)
    ensures c !in {0, 37, 99, 115} ==> Sufficient([37, c] + rest, args) && Render([37, c] + rest, args) == [37, c] + rest
    ensures Sufficient([37], args) && Render([37], args) == [37]
  {
    assert ([c] + rest)[1..] == rest && ([37, 37] + rest)[2..] == rest;
    assert ([37, 99] + rest)[2..] == rest && ([37, 115] + rest)[2..] == rest;
    assert ([CharArg(c)] + args)[1..] == args && ([StringArg(str)] + args)[1..] == args;
  }

  predicate NoPercent(s: seq<Byte>) {
    forall i :: 0 <= i < |s| ==> s[i] != PERCENT
  }

  // Literal text renders as itself.
  lemma {:induction false} LiteralText(l: seq<Byte>, rest: seq<Byte>, args: seq<Arg>)
    requires NoPercent(l)
    ensures Sufficient(l + rest, args) <==> Sufficient(rest, args)
    ensures Sufficient(rest, args) ==> Render(l + rest, args) == l + Render(rest, args)
    decreases |l|
  {
    if l == [] {
      assert l + rest == rest;
    } else {
      assert (l + rest)[1..] == l[1..] + rest;
      LiteralText(l[1..], rest, args);
      if Sufficient(rest, args) {
        assert l + Render(rest, args) == [l[0]] + (l[1..] + Render(rest, args));
      }
    }
  }

  // A literal character, or %%, in front.
  lemma FirstRenders(f: seq<Byte>, skip: nat, args: seq<Arg>)
    requires f != [] && Sufficient(f, args)
    requires if f[0] == PERCENT then skip == 1 && CharAt(f, 1) == PERCENT else skip == 0
    ensures skip < |f| && Sufficient(f[skip + 1..], args)
    ensures Render(f, args) == [f[skip]] + Render(f[skip + 1..], args)
  {
  }

  // What the first branch of the loop consumes: an optional %, then one
  // character, then text up to the next %.
  lemma ChunkRenders(f: seq<Byte>, skip: nat, amount: nat, args: seq<Arg>)
    requires f != [] && Sufficient(f, args) && 1 <= amount && skip + amount <= |f|
    requires if f[0] == PERCENT then skip == 1 && CharAt(f, 1) == PERCENT else skip == 0
    requires NoPercent(f[skip + 1..skip + amount])
    ensures Sufficient(f[skip + amount..], args)
    ensures Render(f, args) == f[skip..skip + amount] + Render(f[skip + amount..], args)
  {
    hide Render, Sufficient;
    var l, rest := f[skip + 1..skip + amount], f[skip + amount..];
    FirstRenders(f, skip, args);
    assert f[skip + 1..] == l + rest;
    LiteralText(l, rest, args);
    assert f[skip..skip + amount] == [f[skip]] + l;
    assert [f[skip]] + (l + Render(rest, args)) == ([f[skip]] + l) + Render(rest, args);
  }

  // What the other branches consume: a conversion with its argument, or all
  // that is left.
  lemma ConversionRenders(format: seq<Byte>, pos: nat, args: seq<Arg>, arg: nat)
    requires pos < |format| && arg <= |args| && format[pos] == PERCENT && CharAt(format, pos + 1) != PERCENT
    requires Sufficient(format[pos..], args[arg..])
    ensures var c := CharAt(format, pos + 1);
      if c == LOWER_C then
        && pos + 2 <= |format| && arg < |args| && args[arg].CharArg?
        && Sufficient(format[pos + 2..], args[arg + 1..])
        && Render(format[pos..], args[arg..]) == [args[arg].c] + Render(format[pos + 2..], args[arg + 1..])
      else if c == LOWER_S then
        && pos + 2 <= |format| && arg < |args| && args[arg].StringArg? && CString(args[arg].s)
        && Sufficient(format[pos + 2..], args[arg + 1..])
        && Render(format[pos..], args[arg..]) == args[arg].s + Render(format[pos + 2..], args[arg + 1..])
      else
        && Sufficient([], args[arg..])
        && Render(format[pos..], args[arg..]) == format[pos..] + Render([], args[arg..])
  {
    var f, a := format[pos..], args[arg..];
    assert CharAt(f, 1) == CharAt(format, pos + 1);
    if |f| > 1 {
      assert f[2..] == format[pos + 2..];
    }
    if |a| > 0 {
      assert a[1..] == args[arg + 1..];
    }
    assert f + [] == f;
  }

  lemma NothingRenders(args: seq<Arg>)
    ensures Sufficient([], args) && Render([], args) == []
  {
  }
}

module Printf {
  import opened Rendering

  // Where putchar writes to. It never fails.
  class Console {
    var output: seq<Byte>

    method PutChar(c: Byte) returns (r: int)
      modifies this
      ensures output == old(output) + [c] && r == c
    {
      output := output + [c];
      r := c;
    }

    // print
    method Print(data: seq<Byte>) returns (ok: bool)
      modifies this
      ensures ok && output == old(output) + data
    {
      for i := 0 to |data|
        invariant output == old(output) + data[..i]
      {
        var r := PutChar(data[i]);
        assert data[..i + 1] == data[..i] + [data[i]];
        if r == -1 {
          return false;
        }
      }
      assert data[..|data|] == data;
      return true;
    }

    // The rendering is emitted and its length returned; if that exceeds
    // INT_MAX, a prefix of it is emitted and -1 returned.
    method Printf(format: seq<Byte>, args: seq<Arg>) returns (written: int)
      requires CString(format) && Sufficient(format, args)
      modifies this
      ensures var text := Render(format, args);
        && (|text| <= INT_MAX ==> written == |text| && output == old(output) + text)
        && (|text| > INT_MAX ==> written == -1 && exists k :: 0 <= k <= |text| && output == old(output) + text[..k])
    {
      hide Render, Sufficient;
      ghost var text, start := Render(format, args), output;
      var pos, arg := 0, 0;
      written := 0;
      assert format[0..] == format && args[0..] == args && text[..0] == [] && text[0..] == text;
      while CharAt(format, pos) != 0
        invariant pos <= |format| && arg <= |args|
        invariant Emitted(text, start, output, written)
        invariant Sufficient(format[pos..], args[arg..])
        invariant text[written..] == Render(format[pos..], args[arg..])
        decreases |format| - pos
      {
        var maxrem := INT_MAX - written;
        if CharAt(format, pos) != PERCENT || CharAt(format, pos + 1) == PERCENT {
          ghost var f, skip := format[pos..], if format[pos] == PERCENT then 1 else 0;
          if CharAt(format, pos) == PERCENT {
            pos := pos + 1;
          }
          var amount := LiteralLength(format, pos);
          LiteralChunk(format, pos, skip, amount, f, args[arg..]);
          EmitMore(text, start, written, format[pos..pos + amount], format[pos + amount..], args[arg..]);
          if maxrem < amount {
            return -1;
          }
          var ok := Print(format[pos..pos + amount]);
          if !ok {
            return -1;
          }
          pos := pos + amount;
          written := written + amount;
          continue;
        }

        ConversionRenders(format, pos, args, arg);
        var begunAt := pos;
        pos := pos + 1;
        if CharAt(format, pos) == LOWER_C {
          pos := pos + 1;
          var c := args[arg].c;
          arg := arg + 1;
          EmitMore(text, start, written, [c], format[pos..], args[arg..]);
          if maxrem == 0 {
            return -1;
          }
          var ok := Print([c]);
          if !ok {
            return -1;
          }
          written := written + 1;
        } else if CharAt(format, pos) == LOWER_S {
          pos := pos + 1;
          var str := args[arg].s;
          arg := arg + 1;
          EmitMore(text, start, written, str, format[pos..], args[arg..]);
          if maxrem < |str| {
            return -1;
          }
          var ok := Print(str);
          if !ok {
            return -1;
          }
          written := written + |str|;
        } else {
          pos := begunAt;
          var len := |format| - pos;
          EmitMore(text, start, written, format[pos..], [], args[arg..]);
          if maxrem < len {
            return -1;
          }
          var ok := Print(format[pos..]);
          if !ok {
            return -1;
          }
          written := written + len;
          pos := pos + len;
          assert format[pos..] == [];
        }
      }
      NothingRenders(args[arg..]);
      assert format[pos..] == [] && text[..written] == text;
    }

    // The inner loop: how far the text reaches before the next %.
    method LiteralLength(format: seq<Byte>, pos: nat) returns (amount: nat)
      requires CString(format) && pos < |format|
      ensures 1 <= amount && pos + amount <= |format| && NoPercent(format[pos + 1..pos + amount])
    {
      amount := 1;
      while CharAt(format, pos + amount) != 0 && CharAt(format, pos + amount) != PERCENT
        invariant 1 <= amount && pos + amount <= |format|
        invariant forall k :: pos + 1 <= k < pos + amount ==> format[k] != PERCENT
        decreases |format| - amount
      {
        amount := amount + 1;
      }
    }
  }

  lemma SliceOfTail<T>(s: seq<T>, k: nat, a: nat, b: nat)
    requires a <= b && k + b <= |s|
    ensures s[k..][a..b] == s[k + a..k + b] && s[k..][b..] == s[k + b..]
  {
  }

  lemma LiteralChunk(format: seq<Byte>, pos: nat, skip: nat, amount: nat, f: seq<Byte>, args: seq<Arg>)
    requires skip <= pos && pos + amount <= |format| && 1 <= amount && f == format[pos - skip..] && Sufficient(f, args)
    requires if f[0] == PERCENT then skip == 1 && CharAt(f, 1) == PERCENT else skip == 0
    requires NoPercent(format[pos + 1..pos + amount])
    ensures Sufficient(format[pos + amount..], args)
    ensures Render(f, args) == format[pos..pos + amount] + Render(format[pos + amount..], args)
  {
    hide Render, Sufficient;
    SliceOfTail(format, pos - skip, skip + 1, skip + amount);
    SliceOfTail(format, pos - skip, skip, skip + amount);
    ChunkRenders(f, skip, amount, args);
  }

  // The first n bytes of the text have been written.
  ghost predicate Emitted(text: seq<Byte>, start: seq<Byte>, output: seq<Byte>, n: int) {
    0 <= n <= |text| && n <= INT_MAX && output == start + text[..n]
  }

  lemma EmitMore(text: seq<Byte>, start: seq<Byte>, n: nat, chunk: seq<Byte>, rest: seq<Byte>, args: seq<Arg>)
    requires n <= |text| && Sufficient(rest, args) && text[n..] == chunk + Render(rest, args)
    ensures n + |chunk| <= |text|
    ensures (start + text[..n]) + chunk == start + text[..n + |chunk|]
    ensures text[n + |chunk|..] == Render(rest, args)
  {
    hide Render, Sufficient;
    var tail, r := text[n..], Render(rest, args);
    assert |tail| == |chunk| + |r|;
    forall k | 0 <= k < |chunk|
      ensures text[n + k] == chunk[k]
    {
      assert tail[k] == (chunk + r)[k];
    }
    forall k | 0 <= k < |r|
      ensures text[n + |chunk| + k] == r[k]
    {
      assert tail[|chunk| + k] == (chunk + r)[|chunk| + k];
    }
    assert text[..n + |chunk|] == text[..n] + chunk;
  }
}
