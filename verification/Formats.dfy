/** The format engine of src/kernel/printk.c and its twin src/cm/printf.c: what a format means, what the
    engine stores of it, and when that is what was promised. */
module Formats {

  /** The characters before the terminator. */
  type CString = s: string | '\0' !in s witness ""

  const U32_LIMIT: nat := 0x1_0000_0000
  const U64_LIMIT: nat := 0x1_0000_0000_0000_0000

  datatype IntType = Integer | LongInt | LongLongInt | Address

  datatype Arg = Num(value: nat) | Text(text: CString)

  /** A format is a row of pieces; Broken is a conversion that the end of the format cuts off. */
  datatype Piece = Literal(text: string) | Percent | Number(c: char, t: IntType) | Str | Broken

  // ---------------------------------------------------------------------------------------------
  // Reading the format.
  // ---------------------------------------------------------------------------------------------

  /** s_readtype: the type and the position of the first character after the modifiers. */
  function ReadType(fmt: string, i: nat, t: IntType): (r: (IntType, nat))
    requires i <= |fmt|
    ensures i <= r.1 <= |fmt|
    decreases |fmt| - i
  {
    if i == |fmt| then (t, i)
    else if fmt[i] == 'l' then ReadType(fmt, i + 1, if t.Integer? then LongInt else LongLongInt)
    else if fmt[i] == 'p' then ReadType(fmt, i + 1, Address)
    else (t, i)
  }

  predicate IsNumber(c: char) {
    c in "uhxbo"
  }

  predicate IsBase(b: nat) {
    b == 2 || b == 8 || b == 10 || b == 16
  }

  function Base(c: char): (b: nat)
    ensures IsBase(b)
  {
    if c == 'u' then 10 else if c == 'b' then 2 else if c == 'o' then 8 else 16
  }

  /** The letter after the digits. */
  function Identifier(c: char): string {
    if c == 'x' then "h" else if c == 'b' then "b" else if c == 'o' then "o" else ""
  }

  /** The conversion c of type t; an unknown one stands for itself, modifiers included. */
  function PieceOf(text: string, c: char, t: IntType): Piece {
    if IsNumber(c) then Number(c, t) else if c == 's' then Str else if c == '%' then Percent else Literal(text)
  }

  function Parse(fmt: string, i: nat): (p: seq<Piece>)
    decreases |fmt| - i
  {
    if i >= |fmt| then []
    else if fmt[i] != '%' then [Literal([fmt[i]])] + Parse(fmt, i + 1)
    else
      var (t, j) := ReadType(fmt, i + 1, Integer);
      if j == |fmt| then [Broken] else [PieceOf(fmt[i..j + 1], fmt[j], t)] + Parse(fmt, j + 1)
  }

  predicate TakesArg(p: Piece) {
    p.Number? || p.Str?
  }

  /** The arguments that follow the format are those its conversions read. */
  predicate ArgsFit(pieces: seq<Piece>, args: seq<Arg>) {
    if pieces == [] then true
    else if TakesArg(pieces[0]) then
      args != [] && (pieces[0].Number? <==> args[0].Num?) && ArgsFit(pieces[1..], args[1..])
    else ArgsFit(pieces[1..], args)
  }

  function Rest(p: Piece, args: seq<Arg>): seq<Arg>
    requires TakesArg(p) ==> args != []
  {
    if TakesArg(p) then args[1..] else args
  }

  // ---------------------------------------------------------------------------------------------
  // Digits.
  // ---------------------------------------------------------------------------------------------

  const CHARS := "0123456789ABCDEF"

  /** s_readint: on this machine a long is 32 bits wide, and so is an address. */
  function ReadInt(t: IntType, value: nat): (r: nat)
    ensures r < U64_LIMIT && (!t.LongLongInt? ==> r < U32_LIMIT)
  {
    if t.LongLongInt? then value % U64_LIMIT else value % U32_LIMIT
  }

  /** The digits of num, the first one first. */
  function Digits(num: nat, base: nat): (s: string)
    requires IsBase(base)
    ensures s != []
  {
    (if num < base then [] else Digits(num / base, base)) + [CHARS[num % base]]
  }

  function DigitValue(c: char): nat {
    if '0' <= c <= '9' then (c - '0') as nat else if 'A' <= c <= 'F' then (c - 'A') as nat + 10 else 0
  }

  /** Reading a numeral. */
  function Value(s: string, base: nat): nat {
    if s == [] then 0 else Value(s[..|s| - 1], base) * base + DigitValue(s[|s| - 1])
  }

  lemma DivMod(num: nat, base: nat)
    requires IsBase(base)
    ensures num / base * base + num % base == num
    ensures num >= base ==> 0 < num / base < num
    ensures num < base ==> num % base == num
    ensures num / base <= num / 2
    ensures num % base < 16 && (num < base <==> num / base == 0)
  {
    if base == 2 {
    } else if base == 8 {
    } else if base == 10 {
    } else {
      assert base == 16;
    }
  }

  lemma CharsAreDigits(d: nat)
    requires d < 16
    ensures DigitValue(CHARS[d]) == d && (d > 0 ==> CHARS[d] != '0')
  {
    assert CHARS[d] == if d < 10 then '0' + d as char else 'A' + (d - 10) as char;
  }

  /** The last digit, and the number in front of it. */
  lemma LastDigit(num: nat, base: nat)
    requires IsBase(base)
    ensures num % base < 16
    ensures Digits(num, base) == (if num < base then [] else Digits(num / base, base)) + [CHARS[num % base]]
  {
    DivMod(num, base);
  }

  lemma ValueOfLast(front: string, c: char, base: nat)
    ensures Value(front + [c], base) == Value(front, base) * base + DigitValue(c)
  {
    assert (front + [c])[..|front|] == front;
  }

  /** The digits of s_itoa read back as the number, without a leading zero. */
  lemma {:induction false} DigitsParseBack(num: nat, base: nat)
    requires IsBase(base)
    ensures Value(Digits(num, base), base) == num
    ensures num > 0 ==> Digits(num, base)[0] != '0'
    decreases num
  {
    hide Digits, Value, DigitValue;
    DivMod(num, base);
    LastDigit(num, base);
    CharsAreDigits(num % base);
    var front := if num < base then [] else Digits(num / base, base);
    ValueOfLast(front, CHARS[num % base], base);
    if num < base {
      NoDigits(base);
    } else {
      DigitsParseBack(num / base, base);
    }
  }

  lemma NoDigits(base: nat)
    ensures Value([], base) == 0
  {
  }

  function Power(base: nat, n: nat): nat {
    if n == 0 then 1 else base * Power(base, n - 1)
  }

  lemma {:induction false} DigitsAreFew(num: nat, base: nat, n: nat)
    requires IsBase(base) && n > 0 && num < Power(2, n)
    ensures |Digits(num, base)| <= n
    decreases n
  {
    if num >= base {
      DivMod(num, base);
      assert num / 2 < Power(2, n - 1);
      DigitsAreFew(num / base, base, n - 1);
    }
  }

  /** Every value of s_readint has at most 64 digits, in whatever base. */
  lemma DigitsFitOutput(num: nat, base: nat)
    requires IsBase(base) && num < U64_LIMIT
    ensures |Digits(num, base)| <= 64
  {
    assert Power(2, 64) == U64_LIMIT by {
      assert Power(2, 4) == 16;
      PowerAdds(4, 4);
      PowerAdds(8, 8);
      PowerAdds(16, 16);
      PowerAdds(32, 32);
    }
    DigitsAreFew(num, base, 64);
  }

  lemma {:induction false} PowerAdds(m: nat, n: nat)
    ensures Power(2, m + n) == Power(2, m) * Power(2, n)
  {
    if m > 0 {
      PowerAdds(m - 1, n);
    }
  }

  // ---------------------------------------------------------------------------------------------
  // What a format means.
  // ---------------------------------------------------------------------------------------------

  function Rendered(p: Piece, args: seq<Arg>): string
    requires TakesArg(p) ==> args != [] && (p.Number? <==> args[0].Num?)
  {
    match p
    case Literal(text) => text
    case Percent => "%"
    case Number(c, t) => Digits(ReadInt(t, args[0].value), Base(c)) + Identifier(c)
    case Str => args[0].text
    case Broken => ""
  }

  /** The full output of a format. */
  function Render(pieces: seq<Piece>, args: seq<Arg>): string
    requires ArgsFit(pieces, args)
  {
    if pieces == [] then "" else Rendered(pieces[0], args) + Render(pieces[1..], Rest(pieces[0], args))
  }

  /** Where in the output the characters of %% stand, counted from at. */
  function PercentOffsets(pieces: seq<Piece>, args: seq<Arg>, at: nat): seq<nat>
    requires ArgsFit(pieces, args)
  {
    if pieces == [] then []
    else
      (if pieces[0].Percent? then [at] else [])
      + PercentOffsets(pieces[1..], Rest(pieces[0], args), at + |Rendered(pieces[0], args)|)
  }

  // ---------------------------------------------------------------------------------------------
  // What the engine stores.
  // ---------------------------------------------------------------------------------------------

  /** The characters stored so far and size_left. */
  datatype State = State(stored: string, left: int)

  datatype Outcome = Finished(final: State) | Overrun

  /** A character behind the size check. */
  function Put(st: State, c: char): State {
    State(if st.left > 1 then st.stored + [c] else st.stored, st.left - 1)
  }

  function PutAll(st: State, text: string): State
    decreases |text|
  {
    if text == [] then st else PutAll(Put(st, text[0]), text[1..])
  }

  /** The character of %%, which no size check guards. */
  function PutUnchecked(st: State, c: char): State {
    State(st.stored + [c], st.left - 1)
  }

  function ExecPiece(p: Piece, args: seq<Arg>, st: State): State
    requires TakesArg(p) ==> args != [] && (p.Number? <==> args[0].Num?)
  {
    if p.Percent? then PutUnchecked(st, '%') else PutAll(st, Rendered(p, args))
  }

  /** kearly_vsnprintf without its last terminator. Behind a conversion that is cut off it runs past the
      end of the format. */
  function Exec(pieces: seq<Piece>, args: seq<Arg>, st: State): Outcome
    requires ArgsFit(pieces, args)
  {
    if pieces == [] then Finished(st)
    else if pieces[0].Broken? then Overrun
    else Exec(pieces[1..], Rest(pieces[0], args), ExecPiece(pieces[0], args, st))
  }

  function Min(a: int, b: int): int {
    if a < b then a else b
  }

  /** The state after done was put behind the size check into an empty buffer. */
  function After(done: string, size: nat): State
    requires size > 0
  {
    State(done[..Min(|done|, size - 1)], size - |done|)
  }

  lemma {:induction false} PutAllIs(done: string, text: string, size: nat)
    requires size > 0
    ensures PutAll(After(done, size), text) == After(done + text, size)
    decreases |text|
  {
    if text == [] {
      assert done + text == done;
    } else {
      assert Put(After(done, size), text[0]) == After(done + [text[0]], size);
      PutAllIs(done + [text[0]], text[1..], size);
      assert done + [text[0]] + text[1..] == done + text;
    }
  }

  lemma {:induction false} PutAllCounts(st: State, text: string)
    ensures PutAll(st, text).left == st.left - |text| && |PutAll(st, text).stored| >= |st.stored|
    decreases |text|
  {
    if text != [] {
      PutAllCounts(Put(st, text[0]), text[1..]);
    }
  }

  /** Nothing that was stored goes away, size_left counts the whole output, and only a conversion that is
      cut off makes the engine run past the end. */
  lemma {:induction false} ExecCounts(pieces: seq<Piece>, args: seq<Arg>, st: State)
    requires ArgsFit(pieces, args)
    ensures Exec(pieces, args, st).Finished? <==> Broken !in pieces
    ensures Exec(pieces, args, st).Finished? ==>
      var f := Exec(pieces, args, st).final;
      f.left == st.left - |Render(pieces, args)| && |f.stored| >= |st.stored|
  {
    if pieces != [] && !pieces[0].Broken? {
      PutAllCounts(st, Rendered(pieces[0], args));
      ExecCounts(pieces[1..], Rest(pieces[0], args), ExecPiece(pieces[0], args, st));
      assert pieces == [pieces[0]] + pieces[1..];
    }
  }

  /** No %% falls on or behind the last place of a buffer of size characters. */
  predicate BeforeLast(offsets: seq<nat>, size: nat) {
    forall q | q in offsets :: q + 1 < size
  }

  /** From a state that is right for done: the final state is right for the whole output exactly when no
      %% falls on or behind the last place of the buffer; otherwise it has outgrown the buffer. */
  lemma {:induction false} ExecIs(pieces: seq<Piece>, args: seq<Arg>, done: string, size: nat)
    requires ArgsFit(pieces, args) && Broken !in pieces && size > 0
    ensures var r := Exec(pieces, args, After(done, size));
      && r.Finished?
      && if BeforeLast(PercentOffsets(pieces, args, |done|), size)
         then r.final == After(done + Render(pieces, args), size)
         else |r.final.stored| >= size
  {
    hide BeforeLast, Rendered, PercentOffsets, PutAll, Put, After, Min;
    if pieces == [] {
      NoPercents(args, |done|, size);
      assert done + "" == done;
    } else {
      var p := pieces[0];
      var text, rest := Rendered(p, args), Rest(p, args);
      var next := ExecPiece(p, args, After(done, size));
      OffsetsSplit(pieces, args, |done|, size);
      if p.Percent? && |done| + 1 >= size {
        Outgrown(done, size);
        ExecCounts(pieces[1..], rest, next);
      } else {
        PutAllIs(done, text, size);
        if p.Percent? {
          PercentIs(args);
          StoredPercent(done, size);
        }
        ExecIs(pieces[1..], rest, done + text, size);
        assert Render(pieces, args) == text + Render(pieces[1..], rest);
        Associative(done, text, Render(pieces[1..], rest));
      }
    }
  }

  /** %% behind the last place but one. */
  lemma Outgrown(done: string, size: nat)
    requires size > 0 && |done| + 1 >= size
    ensures |PutUnchecked(After(done, size), '%').stored| >= size
  {
  }

  lemma StoredPercent(done: string, size: nat)
    requires |done| + 1 < size
    ensures PutUnchecked(After(done, size), '%') == After(done + "%", size)
  {
  }

  lemma PercentIs(args: seq<Arg>)
    ensures Rendered(Percent, args) == "%"
  {
  }

  lemma NoPercents(args: seq<Arg>, at: nat, size: nat)
    ensures BeforeLast(PercentOffsets([], args, at), size)
  {
  }

  lemma Associative(a: string, b: string, c: string)
    ensures a + b + c == a + (b + c)
  {
  }

  lemma OffsetsSplit(pieces: seq<Piece>, args: seq<Arg>, at: nat, size: nat)
    requires ArgsFit(pieces, args) && pieces != []
    ensures BeforeLast(PercentOffsets(pieces, args, at), size)
            <==> (pieces[0].Percent? ==> at + 1 < size)
                 && BeforeLast(PercentOffsets(pieces[1..], Rest(pieces[0], args), at + |Rendered(pieces[0], args)|), size)
  {
    var tail := PercentOffsets(pieces[1..], Rest(pieces[0], args), at + |Rendered(pieces[0], args)|);
    if pieces[0].Percent? {
      assert PercentOffsets(pieces, args, at) == [at] + tail;
      assert at in [at] + tail && forall q | q in tail :: q in [at] + tail;
    } else {
      assert PercentOffsets(pieces, args, at) == tail;
    }
  }

  /** kearly_vsnprintf of a format into size bytes. */
  function Print(fmt: CString, args: seq<Arg>, size: nat): Outcome
    requires ArgsFit(Parse(fmt, 0), args)
  {
    Exec(Parse(fmt, 0), args, State("", size))
  }

  /** Bounded printing. The engine stays inside the format exactly when no conversion is cut off. Then it
      returns the length of the full output, and it stays inside the buffer exactly when there is room
      for a terminator and every %% of the output comes before the last place; in that case it stores
      as much of the output as fits. */
  lemma PrintsExactly(fmt: CString, args: seq<Arg>, size: nat)
    requires ArgsFit(Parse(fmt, 0), args)
    ensures var r, p := Print(fmt, args, size), Parse(fmt, 0);
      && (r.Finished? <==> Broken !in p)
      && (r.Finished? ==>
            var full := Render(p, args);
            && size - r.final.left == |full|
            && (|r.final.stored| < size <==> size > 0 && BeforeLast(PercentOffsets(p, args, 0), size))
            && (|r.final.stored| < size ==> r.final.stored == full[..Min(|full|, size - 1)]))
  {
    var p := Parse(fmt, 0);
    ExecCounts(p, args, State("", size));
    if size > 0 && Broken !in p {
      assert After("", size) == State("", size);
      ExecIs(p, args, "", size);
      var full := Render(p, args);
      assert "" + full == full && |""| == 0;
      assert |After(full, size).stored| < size;
    }
  }

  lemma PercentAfterLetter()
    ensures Parse("a%%", 0) == [Literal("a"), Percent]
  {
    assert Parse("a%%", 3) == [];
    assert ReadType("a%%", 2, Integer) == (Integer, 2);
    assert Parse("a%%", 1) == [Percent];
  }

  /** A %% that falls on the last place of a buffer of two bytes: the terminator lands behind it. */
  lemma UncheckedPercentOverflows()
    ensures Parse("a%%", 0) == [Literal("a"), Percent] && ArgsFit(Parse("a%%", 0), [])
    ensures Print("a%%", [], 2) == Finished(State("a%", 0))
  {
    hide Parse;
    PercentAfterLetter();
    assert Put(State("", 2), 'a') == State("a", 1);
    assert "a"[1..] == "";
    assert [Literal("a"), Percent][1..] == [Percent] && [Percent][1..] == [];
  }

  /** A lone % at the end. */
  lemma LonePercentOverruns(size: nat)
    ensures Parse("%", 0) == [Broken] && Print("%", [], size) == Overrun
  {
    assert ReadType("%", 1, Integer) == (Integer, 1);
  }
}
