/** `Find.handle_arguments` of `whipper offset find`: the `-o/--offsets`
    string becomes the ordered list of candidate read offsets. Blocks are
    separated by commas; a block holding a colon is an inclusive range
    `a:b`, any other block a single integer. Duplicates are kept, and a
    reversed range contributes nothing. */
module OffsetParse {
  import opened Wrappers
  import opened Text

  /** The ValueErrors the parser can raise. */
  datatype ParseError =
    | NotAnInteger(literal: string)  // int() of something that is not a decimal literal, quoted by ErrorText
    | TooManyColons(block: string)   // `a, b = block.split(':')` with more than two pieces

  /** A stripped decimal literal: an optional sign, then one or more
      digits. After a sign, C's `strtoul` (which `int()` reaches through
      `strtol`) skips whitespace once more, so `"- 5"` reads as -5. */
  function ReadLiteral(u: string): Option<int> {
    if |u| > 0 && (u[0] == '+' || u[0] == '-') then
      SignedValue(u[0], StripLeft(u[1..]))
    else if |u| > 0 && AllDigits(u) then
      Some(DigitsValue(u))
    else
      None
  }

  /** The digits after a sign and the whitespace that follows it. */
  function SignedValue(sign: char, ds: string): Option<int> {
    if |ds| > 0 && AllDigits(ds) then
      Some(if sign == '-' then 0 - DigitsValue(ds) else DigitsValue(ds))
    else
      None
  }

  /** How many characters of a rejected literal the ValueError quotes. */
  const ErrorTextLimit: nat := 200

  /** The text the ValueError of `int(t)` quotes: `t` from its first
      non-whitespace character on (the parser has already skipped the
      leading whitespace when it gives up), cut at `ErrorTextLimit`
      characters. Trailing whitespace is kept. */
  function ErrorText(t: string): (s: string)
    ensures |s| == if |StripLeft(t)| < ErrorTextLimit then |StripLeft(t)| else ErrorTextLimit
    ensures s == StripLeft(t)[..|s|]
    ensures s == [] || !IsSpace(s[0])
  {
    var u := StripLeft(t);
    if |u| < ErrorTextLimit then u else u[..ErrorTextLimit]
  }

  /** Python 2's `int(t)` on a byte string: surrounding whitespace, an
      optional sign (which whitespace may follow), then one or more
      decimal digits. */
  function ParseInt(t: string): (r: Result<int, ParseError>)
    ensures r.Err? ==> r.error == NotAnInteger(ErrorText(t))
  {
    match ReadLiteral(Strip(t))
    case None => Err(NotAnInteger(ErrorText(t)))
    case Some(v) => Ok(v)
  }

  /** `u` spells `v` in the syntax `int()` accepts once the surrounding
      whitespace is gone: an optional sign, whitespace only right after a
      sign, then one or more decimal digits, read in base 10. */
  ghost predicate Spells(u: string, v: int) {
    exists sign: string, gap: string, ds: string :: SpelledBy(u, v, sign, gap, ds)
  }

  /** `u` is the literal put together from a sign, the whitespace after
      the sign and its digits, and those digits with that sign read in
      base 10 give `v`. */
  predicate SpelledBy(u: string, v: int, sign: string, gap: string, ds: string) {
    && (sign == "" || sign == "+" || sign == "-")
    && (sign == "" ==> gap == "")
    && (forall i :: 0 <= i < |gap| ==> IsSpace(gap[i]))
    && |ds| > 0 && AllDigits(ds)
    && u == sign + gap + ds
    && v == (if sign == "-" then 0 - DigitsValue(ds) else DigitsValue(ds))
  }

  /** Python's `range(lo, hi)`: the integers from `lo` up to but not
      including `hi`, empty when `hi <= lo`. */
  function Range(lo: int, hi: int): (r: seq<int>)
    ensures |r| == if lo < hi then hi - lo else 0
    ensures forall i :: 0 <= i < |r| ==> r[i] == lo + i
    decreases hi - lo
  {
    if lo < hi then [lo] + Range(lo + 1, hi) else []
  }

  /** The offsets one comma-separated block stands for: one offset for
      a block without a colon, consecutive offsets for `a:b`, and the
      ValueError of the unpacking or of `int()` otherwise. */
  function ExpandBlock(b: string): Result<seq<int>, ParseError> {
    if ':' in b then
      var pieces := Split(b, ':');
      if |pieces| != 2 then
        Err(TooManyColons(b))
      else
        ExpandColonBlock(pieces[0], pieces[1])
    else
      ExpandPlainBlock(b)
  }

  /** `for i in range(int(a), int(b) + 1)`: the ValueError of the first
      half that `int()` rejects, otherwise the offsets from a to b. */
  function ExpandColonBlock(a: string, b: string): (r: Result<seq<int>, ParseError>)
    ensures r.Ok? ==> forall i :: 0 <= i < |r.value| ==> r.value[i] == r.value[0] + i
    ensures ParseInt(a).Err? ==> r == Err(NotAnInteger(ErrorText(a)))
    ensures ParseInt(a).Ok? && ParseInt(b).Err? ==> r == Err(NotAnInteger(ErrorText(b)))
    ensures ParseInt(a).Ok? && ParseInt(b).Ok? ==>
      var lo, hi := ParseInt(a).value, ParseInt(b).value;
      && r.Ok?
      && |r.value| == (if lo <= hi then hi - lo + 1 else 0)
      && forall i :: 0 <= i < |r.value| ==> r.value[i] == lo + i
  {
    match ParseInt(a)
    case Err(e) => Err(e)
    case Ok(lo) =>
      match ParseInt(b)
      case Err(e) => Err(e)
      case Ok(hi) => Ok(Range(lo, hi + 1))
  }

  /** What one block gives: one offset when it has no colon, consecutive
      offsets in any case; the two-name unpacking fails exactly when the
      block has more than one colon, and an `int()` failure names the
      block or one of its two halves. */
  lemma ExpandBlockShape(b: string)
    ensures var r := ExpandBlock(b);
      && (r.Ok? && ':' !in b ==> |r.value| == 1)
      && (r.Ok? ==> forall i :: 0 <= i < |r.value| ==> r.value[i] == r.value[0] + i)
      && ((r.Err? && r.error.TooManyColons?) <==> |Split(b, ':')| > 2)
      && (r.Err? && r.error.TooManyColons? ==> r.error.block == b)
      && (r.Err? && r.error.NotAnInteger? && ':' !in b ==> r.error.literal == ErrorText(b))
      && (':' !in b ==> (r.Err? <==> ParseInt(b).Err?))
      && (|Split(b, ':')| == 2 ==>
            var pieces := Split(b, ':');
            && (ParseInt(pieces[0]).Err? ==> r == Err(NotAnInteger(ErrorText(pieces[0]))))
            && (ParseInt(pieces[0]).Ok? && ParseInt(pieces[1]).Err? ==> r == Err(NotAnInteger(ErrorText(pieces[1]))))
            && (ParseInt(pieces[0]).Ok? && ParseInt(pieces[1]).Ok? ==> r.Ok?))
  {
    if ':' !in b {
      SplitNoSeparator(b, ':');
      assert ExpandBlock(b) == ExpandPlainBlock(b);
    } else {
      var pieces := Split(b, ':');
      SplitAtSeparator(b, ':');
      if |pieces| == 2 {
        assert pieces[0] in pieces && pieces[1] in pieces;
        assert ExpandBlock(b) == ExpandColonBlock(pieces[0], pieces[1]);
      }
    }
  }

  /** `self._offsets.append(int(b))`: one offset, or the ValueError
      naming the block. */
  function ExpandPlainBlock(b: string): (r: Result<seq<int>, ParseError>)
    ensures r.Ok? ==> |r.value| == 1
    ensures r.Err? ==> r.error == NotAnInteger(ErrorText(b))
    ensures ParseInt(b).Ok? ==> r == Ok([ParseInt(b).value])
  {
    match ParseInt(b)
    case Err(e) => Err(e)
    case Ok(v) => Ok([v])
  }

  /** Sequencing of two parses: the first error wins, otherwise the
      offsets are concatenated in order. */
  function AndThen(first: Result<seq<int>, ParseError>, second: Result<seq<int>, ParseError>): Result<seq<int>, ParseError> {
    match first
    case Err(e) => Err(e)
    case Ok(xs) =>
      match second
      case Err(e) => Err(e)
      case Ok(ys) => Ok(xs + ys)
  }

  /** What each block gives on its own, in block order. */
  function Outcomes(blocks: seq<string>): (rs: seq<Result<seq<int>, ParseError>>)
    ensures |rs| == |blocks|
    ensures forall i :: 0 <= i < |blocks| ==> rs[i] == ExpandBlock(blocks[i])
  {
    seq(|blocks|, i requires 0 <= i < |blocks| => ExpandBlock(blocks[i]))
  }

  /** Running block results in order: each block's offsets are appended
      in turn and the first failing block aborts the whole run. */
  function Collect(rs: seq<Result<seq<int>, ParseError>>): (r: Result<seq<int>, ParseError>)
    ensures r.Ok? <==> forall i :: 0 <= i < |rs| ==> rs[i].Ok?
    decreases |rs|
  {
    if |rs| == 0 then Ok([])
    else
      assert forall i :: 1 <= i < |rs| ==> rs[i] == rs[1..][i - 1];
      AndThen(rs[0], Collect(rs[1..]))
  }

  /** The loop over the blocks of the option. */
  function ParseBlocks(blocks: seq<string>): (r: Result<seq<int>, ParseError>)
    ensures r.Ok? <==> forall i :: 0 <= i < |blocks| ==> ExpandBlock(blocks[i]).Ok?
  {
    Collect(Outcomes(blocks))
  }

  /** The first failing result decides the error of the run. */
  lemma {:induction false} FirstFailure(rs: seq<Result<seq<int>, ParseError>>)
    ensures Collect(rs).Err? ==>
      exists i :: 0 <= i < |rs| && rs[i] == Err(Collect(rs).error) && forall j :: 0 <= j < i ==> rs[j].Ok?
    decreases |rs|
  {
    if |rs| > 0 && Collect(rs).Err? && rs[0].Ok? {
      var later := rs[1..];
      FirstFailure(later);
      var i :| 0 <= i < |later| && later[i] == Err(Collect(later).error) && forall j :: 0 <= j < i ==> later[j].Ok?;
      assert rs[i + 1] == later[i];
      forall j | 0 <= j < i + 1
        ensures rs[j].Ok?
      {
        if j > 0 {
          assert rs[j] == later[j - 1];
        }
      }
    }
  }

  /** The first block that fails decides the error of the block loop. */
  lemma FirstBadBlock(blocks: seq<string>)
    ensures ParseBlocks(blocks).Err? ==>
      exists i :: 0 <= i < |blocks| && ExpandBlock(blocks[i]) == Err(ParseBlocks(blocks).error)
        && forall j :: 0 <= j < i ==> ExpandBlock(blocks[j]).Ok?
  {
    var rs := Outcomes(blocks);
    FirstFailure(rs);
    if Collect(rs).Err? {
      var i :| 0 <= i < |rs| && rs[i] == Err(Collect(rs).error) && forall j :: 0 <= j < i ==> rs[j].Ok?;
      assert ExpandBlock(blocks[i]) == Err(ParseBlocks(blocks).error);
    }
  }

  /** `Find.handle_arguments`: the option parses exactly when every
      comma-separated block does, and otherwise fails with the error of
      the first block that does not. */
  function ParseOffsets(s: string): (r: Result<seq<int>, ParseError>)
    ensures r.Ok? <==> forall b :: b in Split(s, ',') ==> ExpandBlock(b).Ok?
    ensures r.Err? ==>
      exists i :: 0 <= i < |Split(s, ',')| && ExpandBlock(Split(s, ',')[i]) == Err(r.error)
        && forall j :: 0 <= j < i ==> ExpandBlock(Split(s, ',')[j]).Ok?
  {
    FirstBadBlock(Split(s, ','));
    ParseBlocks(Split(s, ','))
  }

  // ---------------------------------------------------------------------
  // The default search space

  /** The AccurateRip drive offsets `whipper offset find` tries by default,
      in the order of the built-in option default. */
  const DefaultOffsetTable: seq<int> := [
    6, 48, 102, 667, 12, 30, 618, 594, 738, -472, 98, 116, 96, 733, 120, 691,
    685, 97, 600, 690, 1292, 99, 676, 686, 1182, -24, 704, 572, 688, 91, 696,
    103, -491, 689, 145, 708, 697, 564, 86, 679, 355, -496, -1164, 1160, 694,
    0, -436, 79, 94, 684, 681, 106, 692, 943, 1194, 92, 117, 680, 682, 1268,
    678, -582, 1473, 1279, -54, 1508, 740, 1272, 534, 976, 687, 675, 1303, 674,
    1263, 108, 974, 122, 111, -489, 772, 732, -495, -494, 975, 935, 87, 668,
    1776, 1364, 1336, 1127]

  /** One offset as the default option writes it: `+n`, `0` or `-n`. */
  function FormatOffset(n: int): (s: string)
    ensures |s| > 0 && !IsSpace(s[0]) && IsDigit(s[|s| - 1])
    ensures ',' !in s && ':' !in s
  {
    if n > 0 then "+" + NatToString(n) else IntToString(n)
  }

  /** Offsets written the way the default option is: `", "` between them. */
  function FormatOffsets(offsets: seq<int>): string
    requires |offsets| > 0
  {
    Join(OffsetTokens(offsets), ',')
  }

  function OffsetTokens(offsets: seq<int>): (ts: seq<string>)
    ensures |ts| == |offsets|
    ensures forall i :: 0 <= i < |ts| ==> ',' !in ts[i]
  {
    seq(|offsets|, i requires 0 <= i < |offsets| => (if i == 0 then "" else " ") + FormatOffset(offsets[i]))
  }

  /** The `-o` default: the literal list whipper writes out, which is exactly
      the table above written with `FormatOffsets`. */
  const DefaultOffsets: string := FormatOffsets(DefaultOffsetTable)

  // ---------------------------------------------------------------------
  // Properties

  /** `int()` of a string is decided by its stripped form. */
  lemma ParseStripped(t: string, u: string, v: int)
    requires Strip(t) == u && ReadLiteral(u) == Some(v)
    ensures ParseInt(t) == Ok(v)
  {
  }

  /** `int(t)` returns `v` exactly when `t` with its surrounding
      whitespace stripped spells `v`. */
  lemma ParseIntSpells(t: string, v: int)
    ensures ParseInt(t) == Ok(v) <==> Spells(Strip(t), v)
  {
    var u := Strip(t);
    assert ParseInt(t) == Ok(v) <==> ReadLiteral(u) == Some(v);
    if ReadLiteral(u) == Some(v) {
      LiteralSpells(u);
    }
    if Spells(u, v) {
      SpellsRead(u, v);
    }
  }

  lemma SpellsRead(u: string, v: int)
    requires Spells(u, v)
    ensures ReadLiteral(u) == Some(v)
  {
    var sign: string, gap: string, ds: string :| SpelledBy(u, v, sign, gap, ds);
    SpelledLiteral(u, v, sign, gap, ds);
  }

  /** `int(t)` raises a ValueError exactly when the stripped `t` spells
      no integer at all. */
  lemma ParseIntRejects(t: string)
    ensures ParseInt(t).Err? <==> forall v :: !Spells(Strip(t), v)
  {
    if ParseInt(t).Ok? {
      ParseIntSpells(t, ParseInt(t).value);
    } else {
      forall v
        ensures !Spells(Strip(t), v)
      {
        ParseIntSpells(t, v);
      }
    }
  }

  lemma LiteralSpells(u: string)
    requires ReadLiteral(u).Some?
    ensures Spells(u, ReadLiteral(u).value)
  {
    var v := ReadLiteral(u).value;
    if u[0] == '+' || u[0] == '-' {
      SignedLiteralSpells(u, v);
    } else {
      assert |u| > 0 && AllDigits(u) && v == DigitsValue(u);
      PlainSpells(u);
    }
  }

  lemma SignedLiteralSpells(u: string, v: int)
    requires |u| > 0 && (u[0] == '+' || u[0] == '-')
    requires ReadLiteral(u) == Some(v)
    ensures Spells(u, v)
  {
    var ds := StripLeft(u[1..]);
    assert |ds| > 0 && AllDigits(ds) && v == (if u[0] == '-' then 0 - DigitsValue(ds) else DigitsValue(ds)) by {
      ReadAfterSign(u, ds);
      SignedDigits(u[0], ds);
    }
    SignedSpells(u, ds);
  }

  lemma SignedSpells(u: string, ds: string)
    requires |u| > 0 && (u[0] == '+' || u[0] == '-')
    requires |ds| > 0 && AllDigits(ds)
    requires StripLeft(u[1..]) == ds
    ensures Spells(u, if u[0] == '-' then 0 - DigitsValue(ds) else DigitsValue(ds))
  {
    var gap := Leading(u[1..]);
    SignSplit(u, gap, ds);
    SignedWitness(u, u[0], gap, ds);
  }

  /** A signed literal is its sign, the whitespace after the sign and
      the digits. */
  lemma SignSplit(u: string, pad: string, ds: string)
    requires |u| > 0 && u[1..] == pad + ds
    ensures u == [u[0]] + pad + ds
  {
    assert u == [u[0]] + u[1..];
  }

  lemma SignedWitness(u: string, c: char, gap: string, ds: string)
    requires c == '+' || c == '-'
    requires forall i :: 0 <= i < |gap| ==> IsSpace(gap[i])
    requires |ds| > 0 && AllDigits(ds)
    requires u == [c] + gap + ds
    ensures Spells(u, if c == '-' then 0 - DigitsValue(ds) else DigitsValue(ds))
  {
    var sign := [c];
    assert (sign == "-") == (c == '-');
    assert sign == "+" || sign == "-";
    assert SpelledBy(u, if c == '-' then 0 - DigitsValue(ds) else DigitsValue(ds), sign, gap, ds);
  }

  lemma PlainSpells(u: string)
    requires |u| > 0 && AllDigits(u)
    ensures Spells(u, DigitsValue(u))
  {
    assert SpelledBy(u, DigitsValue(u), "", "", u) by { assert u == "" + "" + u; }
  }

  lemma SpelledLiteral(u: string, v: int, sign: string, gap: string, ds: string)
    requires SpelledBy(u, v, sign, gap, ds)
    ensures ReadLiteral(u) == Some(v)
  {
    if sign == "" {
      assert u == ds by { assert u == "" + "" + ds; }
      ReadDigits(ds);
    } else {
      var c := sign[0];
      assert sign == [c];
      ReadSignedGap(c, gap, ds);
    }
  }

  lemma ReadSignedGap(c: char, gap: string, ds: string)
    requires c == '+' || c == '-'
    requires forall i :: 0 <= i < |gap| ==> IsSpace(gap[i])
    requires |ds| > 0 && AllDigits(ds)
    ensures ReadLiteral([c] + gap + ds) == Some(if c == '-' then 0 - DigitsValue(ds) else DigitsValue(ds))
  {
    var u := [c] + gap + ds;
    GapStripped(c, gap, ds);
    ReadAfterSign(u, ds);
    SignedDigits(c, ds);
  }

  lemma GapStripped(c: char, gap: string, ds: string)
    requires forall i :: 0 <= i < |gap| ==> IsSpace(gap[i])
    requires |ds| > 0 && AllDigits(ds)
    ensures StripLeft(([c] + gap + ds)[1..]) == ds
  {
    assert ([c] + gap + ds)[1..] == gap + ds;
    assert IsDigit(ds[0]);
    StripLeftPadded(gap, ds);
  }

  lemma ReadAfterSign(u: string, ds: string)
    requires |u| > 0 && (u[0] == '+' || u[0] == '-')
    requires StripLeft(u[1..]) == ds
    ensures ReadLiteral(u) == SignedValue(u[0], ds)
  {
  }

  lemma SignedDigits(c: char, ds: string)
    ensures SignedValue(c, ds).Some? <==> |ds| > 0 && AllDigits(ds)
    ensures SignedValue(c, ds).Some? ==>
      SignedValue(c, ds).value == if c == '-' then 0 - DigitsValue(ds) else DigitsValue(ds)
  {
  }

  /** Whitespace may follow the sign: `int("- 5")` is -5. */
  lemma SignGap(n: nat)
    ensures ParseInt("- " + NatToString(n)) == Ok(-(n as int))
  {
    var ds := NatToString(n);
    var u := ['-'] + " " + ds;
    assert "- " + ds == u;
    SignedGapUnpadded('-', " ", ds);
    assert "" + u == u;
    StripPadded("", u);
    ReadSignedGap('-', " ", ds);
    NatToStringRoundTrip(n);
    ParseStripped(u, u, -(n as int));
  }

  /** A sign, whitespace and a run of digits has no whitespace at either
      end. */
  lemma SignedGapUnpadded(c: char, gap: string, ds: string)
    requires c == '+' || c == '-'
    requires |ds| > 0 && AllDigits(ds)
    ensures var u := [c] + gap + ds; |u| > 0 && !IsSpace(u[0]) && !IsSpace(u[|u| - 1])
  {
    var u := [c] + gap + ds;
    assert u[|u| - 1] == ds[|ds| - 1];
    assert IsDigit(ds[|ds| - 1]);
  }

  /** Whitespace inside the digits is a ValueError. */
  lemma DigitsRunToEnd()
    ensures ParseInt("5 5").Err?
  {
    var t := "5 5";
    StripPadded("", t);
    assert "" + t == t;
    assert t[0] == '5' && t[1] == ' ';
    assert !IsDigit(t[1]);
    UnsignedRejected(t, 1);
    StrippedRejected(t, t);
  }

  /** A sign with no digits after it is a ValueError. */
  lemma SignAlone()
    ensures ParseInt("- ").Err?
  {
    var t := "- ";
    assert t[1..] == " ";
    assert StripLeft(t) == t;
    assert StripRight(t) == "-" by { assert t[..1] == "-"; }
    var u := "-";
    assert u[1..] == "";
    SignedRejected(u);
    StrippedRejected(t, u);
  }

  lemma UnsignedRejected(u: string, k: nat)
    requires k < |u| && !IsDigit(u[k])
    requires u[0] != '+' && u[0] != '-'
    ensures ReadLiteral(u) == None
  {
  }

  lemma SignedRejected(u: string)
    requires |u| > 0 && (u[0] == '+' || u[0] == '-')
    requires StripLeft(u[1..]) == ""
    ensures ReadLiteral(u) == None
  {
  }

  lemma StrippedRejected(t: string, u: string)
    requires Strip(t) == u && ReadLiteral(u) == None
    ensures ParseInt(t).Err?
  {
  }

  lemma ReadDigits(ds: string)
    requires |ds| > 0 && AllDigits(ds)
    ensures ReadLiteral(ds) == Some(DigitsValue(ds))
  {
    assert IsDigit(ds[0]);
  }

  /** `int()` reads back a run of digits, with or without whitespace in
      front. */
  lemma ParseIntDigits(pad: string, n: nat)
    requires pad == "" || pad == " "
    ensures ParseInt(pad + NatToString(n)) == Ok(n)
  {
    var ds := NatToString(n);
    assert IsDigit(ds[0]);
    StripPadded(pad, ds);
    ReadDigits(ds);
    NatToStringRoundTrip(n);
    ParseStripped(pad + ds, ds, n);
  }

  /** `int()` reads back a signed run of digits, with or without
      whitespace in front. */
  lemma ParseIntSigned(pad: string, sign: char, m: nat)
    requires pad == "" || pad == " "
    requires sign == '+' || sign == '-'
    ensures ParseInt(pad + ([sign] + NatToString(m))) == Ok(if sign == '-' then 0 - m else m)
  {
    var ds := NatToString(m);
    var f := [sign] + ds;
    assert [sign] + "" + ds == f;
    SignedGapUnpadded(sign, "", ds);
    StripPadded(pad, f);
    ReadSignedGap(sign, "", ds);
    NatToStringRoundTrip(m);
    ParseStripped(pad + f, f, if sign == '-' then 0 - m else m);
  }

  lemma ParseIntNegative(pad: string, n: int)
    requires pad == "" || pad == " "
    requires n < 0
    ensures ParseInt(pad + IntToString(n)) == Ok(n)
  {
    var m: nat := -n;
    var f := ['-'] + NatToString(m);
    assert IntToString(n) == f;
    ParseIntSigned(pad, '-', m);
    assert ParseInt(pad + f) == Ok(n);
  }

  lemma ParseIntPositive(pad: string, n: int)
    requires pad == "" || pad == " "
    requires n > 0
    ensures ParseInt(pad + FormatOffset(n)) == Ok(n)
    ensures ParseInt(pad + IntToString(n)) == Ok(n)
  {
    assert FormatOffset(n) == ['+'] + NatToString(n);
    ParseIntSigned(pad, '+', n);
    assert IntToString(n) == NatToString(n);
    ParseIntDigits(pad, n);
  }

  /** `int()` reads back what the default option or `"%d"` wrote. */
  lemma ParseIntFormatted(pad: string, n: int)
    requires pad == "" || pad == " "
    ensures ParseInt(pad + FormatOffset(n)) == Ok(n)
    ensures ParseInt(pad + IntToString(n)) == Ok(n)
  {
    if n > 0 {
      ParseIntPositive(pad, n);
    } else if n < 0 {
      assert FormatOffset(n) == IntToString(n);
      ParseIntNegative(pad, n);
    } else {
      assert FormatOffset(n) == IntToString(n) == NatToString(0);
      ParseIntDigits(pad, 0);
    }
  }

  /** A bare block is the one integer it spells. */
  lemma ExpandSingle(n: int)
    ensures ExpandBlock(IntToString(n)) == Ok([n])
  {
    NoColon(n);
    ParseIntToString(n);
    ExpandPlain(IntToString(n), n);
  }

  lemma ExpandPlain(blk: string, v: int)
    requires ':' !in blk && ParseInt(blk) == Ok(v)
    ensures ExpandBlock(blk) == Ok([v])
  {
  }

  lemma ParseIntToString(n: int)
    ensures ParseInt(IntToString(n)) == Ok(n)
  {
    ParseIntFormatted("", n);
    assert "" + IntToString(n) == IntToString(n);
  }

  lemma NoColon(n: int)
    ensures ':' !in IntToString(n)
  {
  }

  lemma SplitPair(sa: string, sb: string)
    requires ':' !in sa && ':' !in sb
    ensures ':' in sa + ":" + sb
    ensures Split(sa + ":" + sb, ':') == [sa, sb]
  {
    var blk := sa + ":" + sb;
    assert blk[|sa|] == ':';
    assert blk == Join([sa, sb], ':');
    SplitJoin([sa, sb], ':');
  }

  /** A block `a:b` stands for `a, a+1, ..., b`; when `a > b` it stands
      for nothing and the parse still succeeds. */
  lemma ExpandRange(a: int, b: int)
    ensures ExpandBlock(IntToString(a) + ":" + IntToString(b)).Ok?
    ensures var xs := ExpandBlock(IntToString(a) + ":" + IntToString(b)).value;
      && |xs| == (if a <= b then b - a + 1 else 0)
      && (forall i :: 0 <= i < |xs| ==> xs[i] == a + i)
  {
    var sa, sb := IntToString(a), IntToString(b);
    NoColon(a);
    NoColon(b);
    SplitPair(sa, sb);
    ParseIntToString(a);
    ParseIntToString(b);
    ExpandPair(sa + ":" + sb, sa, sb, a, b);
    var xs := Range(a, b + 1);
    assert |xs| == (if a <= b then b - a + 1 else 0);
  }

  lemma ExpandPair(blk: string, sa: string, sb: string, lo: int, hi: int)
    requires ':' in blk && Split(blk, ':') == [sa, sb]
    requires ParseInt(sa) == Ok(lo) && ParseInt(sb) == Ok(hi)
    ensures ExpandBlock(blk) == Ok(Range(lo, hi + 1))
  {
  }

  /** Running two lists of results in sequence appends their offsets,
      first error first. */
  lemma {:induction false} CollectAppend(rs: seq<Result<seq<int>, ParseError>>, ss: seq<Result<seq<int>, ParseError>>)
    ensures Collect(rs + ss) == AndThen(Collect(rs), Collect(ss))
    decreases |rs|
  {
    if |rs| == 0 {
      assert rs + ss == ss;
      AndThenUnit(Collect(ss));
    } else {
      assert (rs + ss)[1..] == rs[1..] + ss;
      CollectAppend(rs[1..], ss);
      AndThenAssoc(rs[0], Collect(rs[1..]), Collect(ss));
    }
  }

  lemma AndThenUnit(a: Result<seq<int>, ParseError>)
    ensures AndThen(Ok([]), a) == a
  {
    if a.Ok? {
      assert [] + a.value == a.value;
    }
  }

  lemma AndThenAssoc(a: Result<seq<int>, ParseError>, b: Result<seq<int>, ParseError>, c: Result<seq<int>, ParseError>)
    ensures AndThen(a, AndThen(b, c)) == AndThen(AndThen(a, b), c)
  {
    if a.Ok? && b.Ok? && c.Ok? {
      assert a.value + (b.value + c.value) == (a.value + b.value) + c.value;
    }
  }

  /** Parsing consecutive block lists appends their offsets, first error
      first. */
  lemma ParseBlocksAppend(xs: seq<string>, ys: seq<string>)
    ensures ParseBlocks(xs + ys) == AndThen(ParseBlocks(xs), ParseBlocks(ys))
  {
    var rs, ss := Outcomes(xs), Outcomes(ys);
    assert Outcomes(xs + ys) == rs + ss by {
      forall i | 0 <= i < |xs + ys|
        ensures Outcomes(xs + ys)[i] == (rs + ss)[i]
      {
        if i < |xs| {
          assert (xs + ys)[i] == xs[i];
        } else {
          assert (xs + ys)[i] == ys[i - |xs|];
        }
      }
    }
    CollectAppend(rs, ss);
  }

  /** The parsed offsets are those of the text before a comma followed by
      those of the text after it: token order is kept, duplicates are not
      removed, and a bad token anywhere fails the whole parse. */
  lemma ParseOffsetsAppend(a: string, b: string)
    ensures ParseOffsets(a + "," + b) == AndThen(ParseOffsets(a), ParseOffsets(b))
  {
    assert a + "," + b == a + [','] + b;
    SplitAppend(a, b, ',');
    ParseBlocksAppend(Split(a, ','), Split(b, ','));
  }

  /** Giving the same offsets twice tries them twice. */
  lemma ParseKeepsDuplicates(a: string)
    requires ParseOffsets(a).Ok?
    ensures ParseOffsets(a + "," + a) == Ok(ParseOffsets(a).value + ParseOffsets(a).value)
  {
    ParseOffsetsAppend(a, a);
  }

  /** An empty option is `int('')`, a ValueError: it does not give an
      empty list of offsets. */
  lemma EmptyOptionFails()
    ensures ParseOffsets("") == Err(NotAnInteger(""))
  {
    assert Split("", ',') == [""];
    assert Strip("") == "";
  }

  /** A block `int()` rejects is quoted from its first non-whitespace
      character on: the whitespace in front of it is not part of the
      ValueError. */
  lemma PaddedBlockQuoted(pad: string, u: string)
    requires forall i :: 0 <= i < |pad| ==> IsSpace(pad[i])
    requires |u| > 0 && !IsSpace(u[0]) && !IsSpace(u[|u| - 1])
    requires ':' !in pad + u
    requires ReadLiteral(u) == None
    ensures ExpandBlock(pad + u) == Err(NotAnInteger(ErrorText(u)))
    ensures |u| <= ErrorTextLimit ==> ExpandBlock(pad + u) == Err(NotAnInteger(u))
  {
    StripPadded(pad, u);
    StrippedRejected(pad + u, u);
    ErrorTextSkipsPadding(pad, u);
    PlainBlock(pad + u);
    if |u| <= ErrorTextLimit {
      ErrorTextWhole(u);
    }
  }

  /** Whitespace in front of a literal does not change what its
      ValueError quotes. */
  lemma ErrorTextSkipsPadding(pad: string, x: string)
    requires forall i :: 0 <= i < |pad| ==> IsSpace(pad[i])
    requires x == [] || !IsSpace(x[0])
    ensures ErrorText(pad + x) == ErrorText(x)
  {
    StripLeftPadded(pad, x);
    assert StripLeft(x) == x;
  }

  /** A short literal that starts with no whitespace is quoted whole. */
  lemma ErrorTextWhole(x: string)
    requires x == [] || !IsSpace(x[0])
    requires |x| <= ErrorTextLimit
    ensures ErrorText(x) == x
  {
    assert StripLeft(x) == x;
  }

  /** A block without a colon is a single `int()`. */
  lemma PlainBlock(b: string)
    requires ':' !in b
    ensures ExpandBlock(b) == ExpandPlainBlock(b)
  {
  }

  /** A sign followed by a digit and later a non-digit is no literal. */
  lemma SignedNonDigit(u: string, k: nat)
    requires |u| > 1 && (u[0] == '+' || u[0] == '-') && IsDigit(u[1])
    requires 1 < k < |u| && !IsDigit(u[k])
    ensures ReadLiteral(u) == None
  {
    assert StripLeft(u[1..]) == u[1..];
    assert u[1..][k - 1] == u[k];
  }

  /** An option without a comma is a single block. */
  lemma OneBlockOption(b: string)
    requires ',' !in b
    ensures ParseOffsets(b) == ExpandBlock(b)
  {
    SplitNoSeparator(b, ',');
    var rs := Outcomes([b]);
    assert rs[1..] == [];
    match ExpandBlock(b)
    case Err(_) =>
    case Ok(xs) => assert xs + [] == xs;
  }

  /** In an option written the default way, a rejected block after a
      comma is quoted without the whitespace after the comma: for
      example `-o "+6, +4x8"` fails on `'+4x8'` (see `BadLiterals`). */
  lemma SecondBlockQuoted(x: int, pad: string, u: string)
    requires forall i :: 0 <= i < |pad| ==> IsSpace(pad[i])
    requires |u| > 0 && !IsSpace(u[0]) && !IsSpace(u[|u| - 1])
    requires ',' !in pad + u && ':' !in pad + u
    requires ReadLiteral(u) == None
    ensures ParseOffsets(FormatOffset(x) + "," + pad + u) == Err(NotAnInteger(ErrorText(u)))
  {
    var f := FormatOffset(x);
    assert f + "," + pad + u == f + "," + (pad + u);
    ParseOffsetsAppend(f, pad + u);
    OneBlockOption(f);
    OneBlockOption(pad + u);
    ParseIntFormatted("", x);
    assert "" + f == f;
    ExpandPlain(f, x);
    PaddedBlockQuoted(pad, u);
  }

  /** The same holds for the first half of a range: in `" 5x:7"` the
      ValueError quotes `'5x'`. */
  lemma RangeHalfQuoted(pad: string, a: string, b: string)
    requires forall i :: 0 <= i < |pad| ==> IsSpace(pad[i])
    requires |a| > 0 && !IsSpace(a[0]) && !IsSpace(a[|a| - 1])
    requires ':' !in pad + a && ':' !in b
    requires ReadLiteral(a) == None
    ensures ExpandBlock(pad + a + ":" + b) == Err(NotAnInteger(ErrorText(a)))
  {
    SplitPair(pad + a, b);
    StripPadded(pad, a);
    StrippedRejected(pad + a, a);
    ErrorTextSkipsPadding(pad, a);
  }

  /** `+4x8` and `5x` are no literals, and each is quoted whole. */
  lemma BadLiterals()
    ensures ReadLiteral("+4x8") == None && ErrorText("+4x8") == "+4x8"
    ensures ReadLiteral("5x") == None && ErrorText("5x") == "5x"
  {
    SignedNonDigit("+4x8", 2);
    assert !IsDigit("5x"[1]);
    UnsignedRejected("5x", 1);
    ErrorTextWhole("+4x8");
    ErrorTextWhole("5x");
  }

  lemma {:induction false} CollectSingletons(rs: seq<Result<seq<int>, ParseError>>, vals: seq<int>)
    requires |rs| == |vals|
    requires forall i :: 0 <= i < |rs| ==> rs[i] == Ok([vals[i]])
    ensures Collect(rs) == Ok(vals)
    decreases |rs|
  {
    if |rs| > 0 {
      var rr, rv := rs[1..], vals[1..];
      forall i | 0 <= i < |rr|
        ensures rr[i] == Ok([rv[i]])
      {
        assert rr[i] == rs[i + 1] && rv[i] == vals[i + 1];
      }
      CollectSingletons(rr, rv);
      assert [vals[0]] + rv == vals;
    }
  }

  lemma ParseBlocksSingletons(blocks: seq<string>, vals: seq<int>)
    requires |blocks| == |vals|
    requires forall i :: 0 <= i < |blocks| ==> ExpandBlock(blocks[i]) == Ok([vals[i]])
    ensures ParseBlocks(blocks) == Ok(vals)
  {
    CollectSingletons(Outcomes(blocks), vals);
  }

  /** Every list of offsets written as the default option writes them
      parses back to itself. */
  lemma FormatOffsetsRoundTrip(offsets: seq<int>)
    requires |offsets| > 0
    ensures ParseOffsets(FormatOffsets(offsets)) == Ok(offsets)
  {
    var ts := OffsetTokens(offsets);
    SplitJoin(ts, ',');
    forall i | 0 <= i < |ts|
      ensures ExpandBlock(ts[i]) == Ok([offsets[i]])
    {
      var pad := if i == 0 then "" else " ";
      ParseIntFormatted(pad, offsets[i]);
      assert ts[i] == pad + FormatOffset(offsets[i]);
      ExpandPlain(ts[i], offsets[i]);
    }
    ParseBlocksSingletons(ts, offsets);
  }

  /** With no `-o`, the search tries the 92 default offsets in table order. */
  lemma DefaultOffsetsParse()
    ensures ParseOffsets(DefaultOffsets) == Ok(DefaultOffsetTable)
    ensures |DefaultOffsetTable| == 92
  {
    FormatOffsetsRoundTrip(DefaultOffsetTable);
  }
}
