/** The engine on a character buffer. */
module Printing {
  import opened Formats

  /** What the routines share through pointers: the place to write and size_left. */
  class Output {
    const dest: array<char>
    var at: nat
    var left: int

    constructor (dest: array<char>, size: nat)
      requires size <= dest.Length
      ensures this.dest == dest && Valid() && View() == State("", size)
    {
      this.dest, at, left := dest, 0, size;
    }

    /** A write behind the size check stays inside the buffer. */
    ghost predicate Valid()
      reads this
    {
      at <= dest.Length && at + left <= dest.Length
    }

    ghost function View(): State
      requires Valid()
      reads this, dest
    {
      State(dest[..at], left)
    }

    /** Nothing from the place to write on has changed. */
    twostate predicate TailUntouched()
      reads this, dest
    {
      forall j :: at <= j < dest.Length ==> dest[j] == old(dest[j])
    }

    method PutChar(c: char)
      requires Valid()
      modifies this`at, this`left, dest
      ensures Valid() && View() == Put(old(View()), c) && TailUntouched() && at >= old(at)
    {
      if left > 1 {
        dest[at] := c;
        at := at + 1;
      }
      left := left - 1;
    }

    /** s_itoa. */
    method Itoa(num: nat, base: nat)
      requires Valid() && IsBase(base) && num < U64_LIMIT
      modifies this`at, this`left, dest
      ensures Valid() && View() == PutAll(old(View()), Digits(num, base)) && TailUntouched() && at >= old(at)
    {
      var output := new char[65];
      var i := MakeDigits(output, num, base);
      PutReversed(output, i);
    }

    /** The second loop of s_itoa. */
    method PutReversed(output: array<char>, n: nat)
      requires Valid() && n <= output.Length && output != dest
      modifies this`at, this`left, dest
      ensures Valid() && View() == PutAll(old(View()), Reverse(output[..n])) && TailUntouched() && at >= old(at)
    {
      var i: nat := n;
      while i > 0
        invariant i <= n && Valid() && TailUntouched() && at >= old(at)
        invariant PutAll(View(), Reverse(output[..i])) == PutAll(old(View()), Reverse(output[..n]))
      {
        i := i - 1;
        assert output[..i + 1] == output[..i] + [output[i]];
        ReverseGrows(output[..i], output[i]);
        assert ([output[i]] + Reverse(output[..i]))[1..] == Reverse(output[..i]);
        PutChar(output[i]);
      }
    }

    /** s_addBaseIdentifier, on the terminated string iden. */
    method AddBaseIdentifier(iden: CString, idenSize: nat)
      requires Valid() && |iden| <= idenSize
      modifies this`at, this`left, dest
      ensures Valid() && View() == PutAll(old(View()), iden) && TailUntouched() && at >= old(at)
    {
      var k := 0;
      assert iden[0..] == iden;
      while k < idenSize && k < |iden|
        invariant k <= |iden| && Valid() && TailUntouched() && at >= old(at)
        invariant PutAll(View(), iden[k..]) == PutAll(old(View()), iden)
      {
        assert iden[k..][1..] == iden[k + 1..];
        PutChar(iden[k]);
        k := k + 1;
      }
    }

    /** The loop for %s. */
    method PutString(text: string)
      requires Valid()
      modifies this`at, this`left, dest
      ensures Valid() && View() == PutAll(old(View()), text) && TailUntouched() && at >= old(at)
    {
      var k := 0;
      assert text[0..] == text;
      while k < |text|
        invariant k <= |text| && Valid() && TailUntouched() && at >= old(at)
        invariant PutAll(View(), text[k..]) == PutAll(old(View()), text)
      {
        assert text[k..][1..] == text[k + 1..];
        PutChar(text[k]);
        k := k + 1;
      }
    }

    /** s_convert, for any character that is not a literal. */
    method Convert(t: IntType, c: char, arg: Arg) returns (isLiteral: bool)
      requires Valid() && (c == '%' ==> at < dest.Length)
      requires (IsNumber(c) ==> arg.Num?) && (c == 's' ==> arg.Text?)
      modifies this`at, this`left, dest
      ensures Valid() && TailUntouched() && at >= old(at)
      ensures isLiteral <==> !IsNumber(c) && c != 's' && c != '%'
      ensures isLiteral ==> View() == old(View())
      ensures !isLiteral ==> View() == ExecPiece(PieceOf("", c, t), [arg], old(View()))
    {
      isLiteral := false;
      if IsNumber(c) {
        Itoa(ReadInt(t, arg.value), Base(c));
        ghost var digits := Digits(ReadInt(t, arg.value), Base(c));
        PutAllTwice(old(View()), digits, Identifier(c));
        if c != 'u' && c != 'h' {
          AddBaseIdentifier(Identifier(c), 1);
        }
      } else if c == 's' {
        PutString(arg.text);
      } else if c == '%' {
        dest[at] := '%';
        at := at + 1;
        left := left - 1;
      } else {
        isLiteral := true;
      }
    }
  }

  /** The first loop of s_itoa: the digits, last one first, never fill the 65 places. */
  method MakeDigits(output: array<char>, num: nat, base: nat) returns (i: nat)
    requires output.Length == 65 && IsBase(base) && num < U64_LIMIT
    modifies output
    ensures i <= 64 && Reverse(output[..i]) == Digits(num, base)
  {
    hide Digits, Reverse;
    DigitsFitOutput(num, base);
    EmptyReverse(Digits(num, base));
    var n: nat := num;
    i := 0;
    var again := true;
    assert output[..0] == [];
    while again
      invariant i <= 64 && (again ==> i + |Digits(n, base)| <= 64)
      invariant Digits(num, base) == if again then Digits(n, base) + Reverse(output[..i]) else Reverse(output[..i])
      decreases n, again
    {
      DivMod(n, base);
      DigitStep(n, base, Reverse(output[..i]));
      output[i] := CHARS[n % base];
      ReverseGrows(output[..i], CHARS[n % base]);
      assert output[..i + 1] == output[..i] + [CHARS[n % base]];
      i := i + 1;
      n := n / base;
      again := n > 0;
    }
  }

  function Reverse(s: string): (r: string)
    ensures |r| == |s|
  {
    if s == [] then [] else [s[|s| - 1]] + Reverse(s[..|s| - 1])
  }

  lemma EmptyReverse(s: string)
    ensures s + Reverse([]) == s
  {
  }

  /** The next digit joins those after it. */
  lemma DigitStep(n: nat, base: nat, tail: string)
    requires IsBase(base)
    ensures var c := CHARS[n % base];
      && Digits(n, base) + tail == (if n / base > 0 then Digits(n / base, base) + ([c] + tail) else [c] + tail)
      && (n / base > 0 ==> |Digits(n, base)| == |Digits(n / base, base)| + 1)
  {
    hide Digits;
    LastDigit(n, base);
    if n / base > 0 {
      JoinOne(Digits(n / base, base), CHARS[n % base], tail);
    }
  }

  lemma JoinOne(s: string, c: char, tail: string)
    ensures s + [c] + tail == s + ([c] + tail)
  {
  }

  lemma ReverseGrows(s: string, c: char)
    ensures Reverse(s + [c]) == [c] + Reverse(s)
  {
    assert (s + [c])[..|s|] == s;
  }

  lemma {:induction false} PutAllTwice(st: State, a: string, b: string)
    ensures PutAll(PutAll(st, a), b) == PutAll(st, a + b)
    decreases |a|
  {
    hide Put;
    if a == [] {
      assert a + b == b;
    } else {
      PutAllTwice(Put(st, a[0]), a[1..], b);
      assert (a + b)[1..] == a[1..] + b;
    }
  }

  /** s_readtype: i is at the %, and ends at the conversion character. */
  method ReadTypeAt(fmt: string, i: nat) returns (t: IntType, j: nat)
    requires i < |fmt|
    ensures (t, j) == ReadType(fmt, i + 1, Integer)
  {
    t, j := Integer, i + 1;
    while j < |fmt| && (fmt[j] == 'l' || fmt[j] == 'p')
      invariant i < j <= |fmt| && ReadType(fmt, i + 1, Integer) == ReadType(fmt, j, t)
    {
      if fmt[j] == 'l' {
        t := if t.Integer? then LongInt else LongLongInt;
      } else {
        t := Address;
      }
      j := j + 1;
    }
  }

  // ---------------------------------------------------------------------------------------------
  // The loop over the format.
  // ---------------------------------------------------------------------------------------------

  /** The first piece from position f on, and where the next one begins. */
  lemma NextPiece(fmt: string, f: nat)
    requires f < |fmt| && Broken !in Parse(fmt, f)
    ensures fmt[f] != '%' ==> Parse(fmt, f) == [Literal([fmt[f]])] + Parse(fmt, f + 1)
    ensures fmt[f] == '%' ==>
      var (t, j) := ReadType(fmt, f + 1, Integer);
      j < |fmt| && Parse(fmt, f) == [PieceOf(fmt[f..j + 1], fmt[j], t)] + Parse(fmt, j + 1)
  {
  }

  /** One step of Exec, and what it leaves to be stored. */
  lemma ExecStep(p: Piece, rest: seq<Piece>, args: seq<Arg>, st: State)
    requires ArgsFit([p] + rest, args) && !p.Broken? && Broken !in rest
    ensures ArgsFit(rest, Rest(p, args))
    ensures Exec([p] + rest, args, st) == Exec(rest, Rest(p, args), ExecPiece(p, args, st))
    ensures Exec([p] + rest, args, st).Finished?
    ensures |Exec([p] + rest, args, st).final.stored| >= |ExecPiece(p, args, st).stored|
  {
    assert ([p] + rest)[1..] == rest;
    ExecCounts(rest, Rest(p, args), ExecPiece(p, args, st));
  }

  /** kearly_vsnprintf, for a format no conversion of which is cut off and a buffer that what it stores
      fits into. */
  method Vsnprintf(dest: array<char>, size: nat, fmt: CString, args: seq<Arg>) returns (n: int)
    requires ArgsFit(Parse(fmt, 0), args) && Broken !in Parse(fmt, 0)
    requires size <= dest.Length
    requires Print(fmt, args, size).Finished? ==> |Print(fmt, args, size).final.stored| < dest.Length
    modifies dest
    ensures n == |Render(Parse(fmt, 0), args)|
    ensures Print(fmt, args, size).Finished?
    ensures var stored := Print(fmt, args, size).final.stored;
      && |stored| < dest.Length && dest[..|stored|] == stored && dest[|stored|] == '\0'
      && dest[|stored| + 1..] == old(dest[|stored| + 1..])
    ensures size > 0 && BeforeLast(PercentOffsets(Parse(fmt, 0), args, 0), size) ==>
      var full := Render(Parse(fmt, 0), args);
      var m := Min(|full|, size - 1);
      dest[..m] == full[..m] && dest[m] == '\0'
  {
    hide Parse, Exec, ExecPiece, Render, PercentOffsets, ArgsFit, BeforeLast;
    PrintsExactly(fmt, args, size);
    var out := new Output(dest, size);
    var f, k := 0, 0;
    ghost var was := dest[..];
    assert args[0..] == args;
    while f < |fmt|
      invariant f <= |fmt| && k <= |args| && out.Valid() && out.dest == dest
      invariant Broken !in Parse(fmt, f) && ArgsFit(Parse(fmt, f), args[k..])
      invariant Exec(Parse(fmt, f), args[k..], out.View()) == Print(fmt, args, size)
      invariant forall j :: out.at <= j < dest.Length ==> dest[j] == was[j]
      decreases |fmt| - f
      modifies out, dest
    {
      f, k := PrintPiece(out, fmt, f, args, k);
    }
    ParseEnds(fmt, f, args[k..], out.View());
    dest[out.at] := '\0';
    n := size - out.left;
  }

  lemma ParseEnds(fmt: string, f: nat, args: seq<Arg>, st: State)
    requires f >= |fmt|
    ensures ArgsFit(Parse(fmt, f), args) && Exec(Parse(fmt, f), args, st) == Finished(st)
  {
  }

  /** A conversion reads the next argument and no other. */
  lemma ReadsOneArg(text: string, c: char, t: IntType, args: seq<Arg>, arg: Arg, st: State)
    requires var p := PieceOf(text, c, t); TakesArg(p) ==> args != [] && args[0] == arg && (p.Number? <==> arg.Num?)
    ensures IsNumber(c) || c == 's' || c == '%' ==>
      var p := PieceOf(text, c, t);
      ExecPiece(PieceOf("", c, t), [arg], st) == ExecPiece(p, args, st)
    ensures !(IsNumber(c) || c == 's' || c == '%') ==> ExecPiece(PieceOf(text, c, t), args, st) == PutAll(st, text)
    ensures c == '%' ==> |ExecPiece(PieceOf(text, c, t), args, st).stored| == |st.stored| + 1
  {
  }

  lemma LiteralIsPut(text: string, args: seq<Arg>, st: State)
    ensures ExecPiece(Literal(text), args, st) == PutAll(st, text)
  {
  }

  /** One round of the loop. */
  method PrintPiece(out: Output, fmt: string, f: nat, args: seq<Arg>, k: nat) returns (next: nat, nextArg: nat)
    requires f < |fmt| && k <= |args| && out.Valid()
    requires Broken !in Parse(fmt, f) && ArgsFit(Parse(fmt, f), args[k..])
    requires var r := Exec(Parse(fmt, f), args[k..], out.View()); r.Finished? ==> |r.final.stored| < out.dest.Length
    modifies out`at, out`left, out.dest
    ensures f < next <= |fmt| && k <= nextArg <= |args| && out.Valid()
    ensures Broken !in Parse(fmt, next) && ArgsFit(Parse(fmt, next), args[nextArg..])
    ensures Exec(Parse(fmt, next), args[nextArg..], out.View()) == Exec(Parse(fmt, f), args[k..], old(out.View()))
    ensures out.TailUntouched() && out.at >= old(out.at)
  {
    hide Parse, Exec, ExecPiece, PutAll, Rendered;
    NextPiece(fmt, f);
    ghost var before := out.View();
    var isLiteral, prev, here := true, f, f;
    nextArg := k;
    if fmt[f] == '%' {
      var t;
      t, here := ReadTypeAt(fmt, f);
      var c := fmt[here];
      ghost var p := PieceOf(fmt[f..here + 1], c, t);
      ExecStep(p, Parse(fmt, here + 1), args[k..], before);
      var arg := if k < |args| then args[k] else Num(0);
      ReadsOneArg(fmt[f..here + 1], c, t, args[k..], arg, before);
      isLiteral := out.Convert(t, c, arg);
      if IsNumber(c) || c == 's' {
        nextArg := k + 1;
      }
    } else {
      ExecStep(Literal([fmt[f]]), Parse(fmt, f + 1), args[k..], before);
      LiteralIsPut([fmt[f]], args[k..], before);
      assert fmt[f..f + 1] == [fmt[f]];
    }
    if isLiteral {
      out.PutString(fmt[prev..here + 1]);
    }
    next := here + 1;
  }
}
