/** What each conversion of a format shows, said without the functions of the engine: a numeral is known by
    its value, its characters and its first digit. */
module Conversions {
  import opened Formats

  /** s is the numeral of v in base, in upper-case digits and without a leading zero. */
  ghost predicate Numeral(s: string, base: nat, v: nat)
    requires base <= 16
  {
    && s != "" && (|s| > 1 ==> s[0] != '0') && Value(s, base) == v
    && forall k :: 0 <= k < |s| ==> s[k] in "0123456789ABCDEF"[..base]
  }

  /** A numeral with a letter behind it. */
  ghost predicate NumeralThen(s: string, base: nat, v: nat, letter: char)
    requires base <= 16
  {
    s != "" && s[|s| - 1] == letter && Numeral(s[..|s| - 1], base, v)
  }

  /** What is left of an argument: 64 bits when the modifiers end in a second l, 32 otherwise. */
  function Kept(mods: string, value: nat): nat {
    if |mods| >= 2 && mods[|mods| - 1] == 'l' then value % 0x1_0000_0000_0000_0000 else value % 0x1_0000_0000
  }

  /** The conversion c reads an argument of its kind, or none. */
  predicate Reads(c: char, args: seq<Arg>) {
    if c in "uhxbo" then args != [] && args[0].Num?
    else if c == 's' then args != [] && args[0].Text?
    else true
  }

  function Unread(c: char, args: seq<Arg>): seq<Arg>
    requires Reads(c, args)
  {
    if c in "uhxbos" then args[1..] else args
  }

  /** The text that %, the modifiers and c stand for. A character without a meaning leaves them as they are. */
  ghost predicate Shows(mods: string, c: char, args: seq<Arg>, text: string)
    requires Reads(c, args)
  {
    if c == 'u' then Numeral(text, 10, Kept(mods, args[0].value))
    else if c == 'h' then Numeral(text, 16, Kept(mods, args[0].value))
    else if c == 'x' then NumeralThen(text, 16, Kept(mods, args[0].value), 'h')
    else if c == 'b' then NumeralThen(text, 2, Kept(mods, args[0].value), 'b')
    else if c == 'o' then NumeralThen(text, 8, Kept(mods, args[0].value), 'o')
    else if c == 's' then text == args[0].text
    else if c == '%' then text == "%"
    else text == "%" + mods + [c]
  }

  predicate Modifiers(mods: string) {
    forall k :: 0 <= k < |mods| ==> mods[k] == 'l' || mods[k] == 'p'
  }

  // ---------------------------------------------------------------------------------------------
  // Reading on from any position.
  // ---------------------------------------------------------------------------------------------

  lemma {:induction false} ReadTypeBehind(pre: string, s: string, i: nat, t: IntType)
    requires i <= |s|
    ensures ReadType(pre + s, |pre| + i, t) == (ReadType(s, i, t).0, |pre| + ReadType(s, i, t).1)
    decreases |s| - i
  {
    if i < |s| {
      assert (pre + s)[|pre| + i] == s[i];
      if s[i] == 'l' {
        ReadTypeBehind(pre, s, i + 1, if t.Integer? then LongInt else LongLongInt);
      } else if s[i] == 'p' {
        ReadTypeBehind(pre, s, i + 1, Address);
      }
    }
  }

  lemma ParseStep(fmt: string, i: nat)
    ensures i >= |fmt| ==> Parse(fmt, i) == []
    ensures i < |fmt| && fmt[i] != '%' ==> Parse(fmt, i) == [Literal([fmt[i]])] + Parse(fmt, i + 1)
    ensures i < |fmt| && fmt[i] == '%' ==>
      var (t, j) := ReadType(fmt, i + 1, Integer);
      Parse(fmt, i) == if j == |fmt| then [Broken] else [PieceOf(fmt[i..j + 1], fmt[j], t)] + Parse(fmt, j + 1)
  {
  }

  lemma SliceBehind(pre: string, s: string, i: nat, j: nat)
    requires i <= j <= |s|
    ensures (pre + s)[|pre| + i..|pre| + j] == s[i..j]
    ensures i < |s| ==> (pre + s)[|pre| + i] == s[i]
  {
  }

  /** What stands in front does not matter. */
  lemma {:induction false} ParseBehind(pre: string, s: string, i: nat)
    requires i <= |s|
    ensures Parse(pre + s, |pre| + i) == Parse(s, i)
    decreases |s| - i
  {
    hide Parse, PieceOf, ReadType;
    ParseStep(s, i);
    ParseStep(pre + s, |pre| + i);
    SliceBehind(pre, s, i, i);
    if i < |s| {
      if s[i] != '%' {
        ParseBehind(pre, s, i + 1);
      } else {
        ReadTypeBehind(pre, s, i + 1, Integer);
        var j := ReadType(s, i + 1, Integer).1;
        if j < |s| {
          SliceBehind(pre, s, i, j + 1);
          SliceBehind(pre, s, j, j);
          ParseBehind(pre, s, j + 1);
        }
      }
    }
  }

  /** From modifier k on: the modifiers are passed, and 64 bits are kept as Kept says. */
  lemma {:induction false} ReadModifiers(mods: string, tail: string, k: nat, t: IntType)
    requires Modifiers(mods) && k <= |mods| && (tail != "" ==> tail[0] != 'l' && tail[0] != 'p')
    requires (t.Integer? <==> k == 0) && (t.LongLongInt? <==> k >= 2 && mods[k - 1] == 'l')
    ensures var (u, j) := ReadType("%" + mods + tail, 1 + k, t);
      j == 1 + |mods| && (u.LongLongInt? <==> |mods| >= 2 && mods[|mods| - 1] == 'l')
    decreases |mods| - k
  {
    var fmt := "%" + mods + tail;
    if k < |mods| {
      assert fmt[1 + k] == mods[k];
      ReadModifiers(mods, tail, k + 1, if mods[k] == 'p' then Address else if t.Integer? then LongInt else LongLongInt);
    } else if tail != "" {
      assert fmt[1 + k] == tail[0];
    }
  }

  // ---------------------------------------------------------------------------------------------
  // What a format means, piece by piece.
  // ---------------------------------------------------------------------------------------------

  lemma {:induction false} DigitsAreChars(num: nat, base: nat)
    requires IsBase(base)
    ensures forall k :: 0 <= k < |Digits(num, base)| ==> Digits(num, base)[k] in "0123456789ABCDEF"[..base]
    decreases num
  {
    hide Digits;
    DivMod(num, base);
    LastDigit(num, base);
    assert CHARS[num % base] == "0123456789ABCDEF"[..base][num % base];
    if num >= base {
      DigitsAreChars(num / base, base);
    }
  }

  lemma DigitsAreNumeral(num: nat, base: nat)
    requires IsBase(base)
    ensures Numeral(Digits(num, base), base, num)
  {
    hide Digits, Value;
    DigitsAreChars(num, base);
    DigitsParseBack(num, base);
    LastDigit(num, base);
  }

  lemma RenderedShows(mods: string, c: char, t: IntType, args: seq<Arg>)
    requires Reads(c, args) && (t.LongLongInt? <==> |mods| >= 2 && mods[|mods| - 1] == 'l')
    ensures var p := PieceOf("%" + mods + [c], c, t);
      && (TakesArg(p) ==> args != [] && (p.Number? <==> args[0].Num?))
      && Shows(mods, c, args, Rendered(p, args)) && Rest(p, args) == Unread(c, args) && !p.Broken?
  {
    hide Digits, Value;
    if c in "uhxbo" {
      var v := ReadInt(t, args[0].value);
      assert v == Kept(mods, args[0].value);
      DigitsAreNumeral(v, Base(c));
      var digits := Digits(v, Base(c));
      if Identifier(c) != "" {
        assert (digits + Identifier(c))[..|digits|] == digits;
      } else {
        assert digits + "" == digits;
      }
    }
  }

  /** A conversion, and what follows it: which arguments fit, and what is printed. */
  lemma ConversionMeans(mods: string, c: char, rest: string, args: seq<Arg>) returns (text: string)
    requires Modifiers(mods) && c != 'l' && c != 'p'
    ensures var p := Parse("%" + mods + [c] + rest, 0);
      && (ArgsFit(p, args) <==> Reads(c, args) && ArgsFit(Parse(rest, 0), Unread(c, args)))
      && (ArgsFit(p, args) ==>
            && Shows(mods, c, args, text)
            && Render(p, args) == text + Render(Parse(rest, 0), Unread(c, args)))
      && (Broken in p <==> Broken in Parse(rest, 0))
  {
    hide Shows, Rendered;
    var fmt := "%" + mods + [c] + rest;
    var q := ConversionIsOnePiece(mods, c, rest);
    assert ([q] + Parse(rest, 0))[1..] == Parse(rest, 0);
    text := "";
    if Reads(c, args) {
      RenderedShows(mods, c, ReadType(fmt, 1, Integer).0, args);
      text := Rendered(q, args);
    }
  }

  lemma ConversionIsOnePiece(mods: string, c: char, rest: string) returns (q: Piece)
    requires Modifiers(mods) && c != 'l' && c != 'p'
    ensures var fmt := "%" + mods + [c] + rest;
      && q == PieceOf("%" + mods + [c], c, ReadType(fmt, 1, Integer).0) && !q.Broken?
      && (ReadType(fmt, 1, Integer).0.LongLongInt? <==> |mods| >= 2 && mods[|mods| - 1] == 'l')
      && Parse(fmt, 0) == [q] + Parse(rest, 0)
  {
    var fmt, head := "%" + mods + [c] + rest, "%" + mods + [c];
    ReadModifiers(mods, [c] + rest, 0, Integer);
    assert fmt == "%" + mods + ([c] + rest);
    var (t, j) := ReadType(fmt, 1, Integer);
    assert fmt[..j + 1] == head && fmt[j] == c;
    q := PieceOf(head, c, t);
    ParseBehind(head, rest, 0);
    assert head + rest == fmt;
  }

  /** Any other character stands for itself. */
  lemma LiteralMeans(c: char, rest: string, args: seq<Arg>)
    requires c != '%'
    ensures var p := Parse([c] + rest, 0);
      && (ArgsFit(p, args) <==> ArgsFit(Parse(rest, 0), args))
      && (ArgsFit(p, args) ==> Render(p, args) == [c] + Render(Parse(rest, 0), args))
      && (Broken in p <==> Broken in Parse(rest, 0))
  {
    ParseBehind([c], rest, 0);
    assert ([Literal([c])] + Parse(rest, 0))[1..] == Parse(rest, 0);
  }

  /** The end of a format, and a conversion that it cuts off. */
  lemma EndMeans(mods: string, args: seq<Arg>)
    requires Modifiers(mods)
    ensures Parse("", 0) == [] && Render([], args) == ""
    ensures Parse("%" + mods, 0) == [Broken]
  {
    ReadModifiers(mods, "", 0, Integer);
    assert "%" + mods + "" == "%" + mods;
  }

  /** The table above kearly_vsnprintf, for a 32-bit argument. */
  lemma DocumentedConversions(v: nat, text: CString)
    requires v < 0x1_0000_0000
    ensures var a := [Num(v)];
      && (forall c :: c in "uhxbo" ==> ArgsFit(Parse("%" + [c], 0), a))
      && Numeral(Render(Parse("%" + ['u'], 0), a), 10, v) && Numeral(Render(Parse("%" + ['h'], 0), a), 16, v)
      && NumeralThen(Render(Parse("%" + ['x'], 0), a), 16, v, 'h')
      && NumeralThen(Render(Parse("%" + ['b'], 0), a), 2, v, 'b')
      && NumeralThen(Render(Parse("%" + ['o'], 0), a), 8, v, 'o')
    ensures ArgsFit(Parse("%" + ['s'], 0), [Text(text)]) && Render(Parse("%" + ['s'], 0), [Text(text)]) == text
    ensures ArgsFit(Parse("%" + ['%'], 0), []) && Render(Parse("%" + ['%'], 0), []) == "%"
  {
    hide Parse, Render, ArgsFit, Numeral, NumeralThen;
    forall c | c in "uhxbo"
      ensures ArgsFit(Parse("%" + [c], 0), [Num(v)]) && Shows("", c, [Num(v)], Render(Parse("%" + [c], 0), [Num(v)]))
    {
      OneConversion(c, Num(v));
    }
    OneConversion('s', Text(text));
    var t := ConversionMeans("", '%', "", []);
    EndMeans("", []);
    assert "%" + "" + ['%'] + "" == "%" + ['%'];
    ArgsFitNone([]);
  }

  lemma OneConversion(c: char, arg: Arg)
    requires c in "uhxbos" && Reads(c, [arg])
    ensures ArgsFit(Parse("%" + [c], 0), [arg]) && Shows("", c, [arg], Render(Parse("%" + [c], 0), [arg]))
  {
    hide Parse, Render, ArgsFit, Shows;
    var t := ConversionMeans("", c, "", [arg]);
    EndMeans("", []);
    assert "%" + "" + [c] + "" == "%" + [c];
    assert [arg][1..] == [];
    ArgsFitNone([]);
    assert t + "" == t;
  }

  lemma ArgsFitNone(args: seq<Arg>)
    ensures ArgsFit([], args)
  {
  }
}
