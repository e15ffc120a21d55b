/**
 * The text of a byte signature and what `PatternToBytes` makes of it.
 *
 * `PatternToBytes` walks the text with a cursor. A `?` (optionally followed by
 * a second `?`) yields the wildcard -1. Anything else is handed to
 * `strtoul(cursor, &cursor, 16)` and the unsigned long it returns is stored
 * in an `int`. Each step then moves the cursor one more character, which is
 * what skips the separating space. Nothing is ever rejected: text that is not
 * a number makes `strtoul` convert nothing and yields 0.
 */
module Patterns {
  import opened Machine

  // ---------------------------------------------------------------------
  // strtoul with base 16, as the C standard (7.22.1.4) describes it
  // ---------------------------------------------------------------------

  /** `isspace` in the "C" locale. */
  predicate IsSpace(c: char)
  {
    c == ' ' || c == '\t' || c == '\n' || c == '\U{B}' || c == '\U{C}' || c == '\r'
  }

  predicate IsHexDigit(c: char)
  {
    '0' <= c <= '9' || 'a' <= c <= 'f' || 'A' <= c <= 'F'
  }

  function HexDigitValue(c: char): (d: nat)
    requires IsHexDigit(c)
    ensures d < 16
  {
    if '0' <= c <= '9' then c as int - '0' as int
    else if 'a' <= c <= 'f' then c as int - 'a' as int + 10
    else c as int - 'A' as int + 10
  }

  /** The first position at or after i that is not white space. */
  function SkipSpace(s: string, i: nat): (j: nat)
    requires i <= |s|
    ensures i <= j <= |s|
    ensures j == |s| || !IsSpace(s[j])
    decreases |s| - i
  {
    if i < |s| && IsSpace(s[i]) then SkipSpace(s, i + 1) else i
  }

  /**
   * The digit loop: from i on, while hex digits follow, `acc` becomes
   * 16 * acc + digit. The end of the run of digits comes back with the value.
   */
  function HexRun(s: string, i: nat, acc: nat): (r: (nat, nat))
    requires i <= |s|
    ensures i <= r.1 <= |s|
    ensures r.1 == |s| || !IsHexDigit(s[r.1])
    ensures r.1 == i ==> r.0 == acc
    decreases |s| - i
  {
    if i < |s| && IsHexDigit(s[i]) then HexRun(s, i + 1, 16 * acc + HexDigitValue(s[i])) else (acc, i)
  }

  /** `ULONG_MAX`: `unsigned long` is 32 bits wide on Windows, for x86 and x64 alike. */
  const ULongMax: nat := 0xFFFF_FFFF

  /**
   * `strtoul(s + start, &end, 16)`: the value and the end position.
   * Leading white space, one optional sign and an optional `0x`/`0X` prefix
   * come before the digits; a magnitude past `ULONG_MAX` gives `ULONG_MAX`,
   * and a minus sign negates modulo 2^32. When no digit follows, nothing is
   * converted: the value is 0 and the end is `start` itself.
   */
  function StrToUl(s: string, start: nat): (r: (nat, nat))
    requires start <= |s|
    ensures r.0 <= ULongMax
    ensures start <= r.1 <= |s|
    ensures r.1 == start ==> r.0 == 0
  {
    var i := SkipSpace(s, start);
    var negative := i < |s| && s[i] == '-';
    var i1 := if i < |s| && (s[i] == '+' || s[i] == '-') then i + 1 else i;
    var i2 := if i1 + 2 < |s| && s[i1] == '0' && (s[i1 + 1] == 'x' || s[i1 + 1] == 'X') && IsHexDigit(s[i1 + 2])
              then i1 + 2 else i1;
    var (magnitude, e) := HexRun(s, i2, 0);
    if e == i2 then (0, start)
    else
      var v := if magnitude > ULongMax then ULongMax
               else if negative then (ULongMax + 1 - magnitude) % (ULongMax + 1)
               else magnitude;
      (v, e)
  }

  // ---------------------------------------------------------------------
  // The cursor walk
  // ---------------------------------------------------------------------

  /** The entry one step of the walk appends when the cursor stands at `cur`. */
  function StepValue(s: string, cur: nat): (v: int)
    requires cur < |s|
    ensures -0x8000_0000 <= v < 0x8000_0000
    ensures s[cur] != '?' && StrToUl(s, cur).1 == cur ==> v == 0
  {
    if s[cur] == '?' then -1 else ToInt32(StrToUl(s, cur).0)
  }

  /**
   * Where the cursor stands after one step: past one or two `?`, or at the
   * end `strtoul` reported, and then one more character on.
   */
  function NextCursor(s: string, cur: nat): (next: nat)
    requires cur < |s|
    ensures cur < next <= |s| + 1
  {
    if s[cur] == '?' then
      (if cur + 1 < |s| && s[cur + 1] == '?' then cur + 2 else cur + 1) + 1
    else
      StrToUl(s, cur).1 + 1
  }

  /**
   * What the cursor walk appends from position `cur` on. The cursor can stand
   * one past the end; that ends the walk like the end itself does.
   */
  function CompileFrom(s: string, cur: nat): (r: seq<int>)
    ensures cur <= |s| ==> |r| <= |s| - cur
    ensures cur >= |s| ==> r == []
    decreases |s| - cur
  {
    if cur >= |s| then [] else [StepValue(s, cur)] + CompileFrom(s, NextCursor(s, cur))
  }

  /**
   * The token sequence `PatternToBytes` returns for a pattern text: at most
   * one entry per character, and none exactly when the text is empty
   * (`CompileEntriesAreInts` says each entry is an `int`).
   */
  function Compile(pattern: string): (r: seq<int>)
    ensures |r| <= |pattern|
    ensures r == [] <==> pattern == []
  {
    CompileFrom(pattern, 0)
  }

  /** Every entry of the walk is an `int` value: `strtoul`'s result is stored in an `int`. */
  lemma {:induction false} CompileEntriesAreInts(s: string, cur: nat)
    ensures forall k :: 0 <= k < |CompileFrom(s, cur)| ==> -0x8000_0000 <= CompileFrom(s, cur)[k] < 0x8000_0000
    decreases |s| - cur
  {
    if cur < |s| {
      CompileEntriesAreInts(s, NextCursor(s, cur));
    }
  }

  // ---------------------------------------------------------------------
  // Well-formed patterns: two-hex-digit bytes and wildcards, one space apart
  // ---------------------------------------------------------------------

  datatype PatternToken =
    | Wildcard(doubled: bool)      // `?`, or `??` when doubled
    | ByteToken(hi: char, lo: char)

  predicate ValidToken(t: PatternToken)
  {
    t.ByteToken? ==> IsHexDigit(t.hi) && IsHexDigit(t.lo)
  }

  function TokenText(t: PatternToken): string
  {
    match t
    case Wildcard(doubled) => if doubled then "??" else "?"
    case ByteToken(hi, lo) => [hi, lo]
  }

  /** The pattern text of a token list: the tokens, separated by single spaces. */
  function Render(toks: seq<PatternToken>): string
  {
    if toks == [] then ""
    else if |toks| == 1 then TokenText(toks[0])
    else TokenText(toks[0]) + " " + Render(toks[1..])
  }

  /** What a token stands for: -1 for any byte, or the byte's value. */
  function TokenValue(t: PatternToken): int
    requires ValidToken(t)
  {
    match t
    case Wildcard(_) => -1
    case ByteToken(hi, lo) => 16 * HexDigitValue(hi) + HexDigitValue(lo)
  }

  function Meanings(toks: seq<PatternToken>): (r: seq<int>)
    requires forall t :: t in toks ==> ValidToken(t)
    ensures |r| == |toks|
    ensures forall i :: 0 <= i < |toks| ==> r[i] == TokenValue(toks[i])
  {
    if toks == [] then [] else [TokenValue(toks[0])] + Meanings(toks[1..])
  }

  /** The one step of the walk over a byte token: `strtoul` reads exactly its two digits. */
  lemma StrToUlOfByteToken(s: string, k: nat)
    requires k + 2 <= |s| && IsHexDigit(s[k]) && IsHexDigit(s[k + 1])
    requires k + 2 == |s| || s[k + 2] == ' '
    ensures StrToUl(s, k) == (16 * HexDigitValue(s[k]) + HexDigitValue(s[k + 1]), k + 2)
  {
    assert SkipSpace(s, k) == k;
    var hi := HexDigitValue(s[k]);
    assert HexRun(s, k + 2, 16 * hi + HexDigitValue(s[k + 1])) == (16 * hi + HexDigitValue(s[k + 1]), k + 2);
    assert HexRun(s, k + 1, hi) == (16 * hi + HexDigitValue(s[k + 1]), k + 2);
    assert HexRun(s, k, 0) == (16 * hi + HexDigitValue(s[k + 1]), k + 2);
  }

  /** A wildcard step: `?` or `??`, then a space or the end of the text. */
  lemma WildcardStep(s: string, k: nat, doubled: bool)
    requires k < |s| && s[k] == '?'
    requires doubled ==> k + 1 < |s| && s[k + 1] == '?'
    requires var e := if doubled then k + 2 else k + 1; e == |s| || s[e] == ' '
    ensures StepValue(s, k) == -1 && NextCursor(s, k) == (if doubled then k + 2 else k + 1) + 1
  {
    var next := if k + 1 < |s| && s[k + 1] == '?' then k + 2 else k + 1;
    assert next == if doubled then k + 2 else k + 1;
  }

  /** A byte step: two hex digits, then a space or the end of the text. */
  lemma ByteStep(s: string, k: nat)
    requires k + 2 <= |s| && IsHexDigit(s[k]) && IsHexDigit(s[k + 1])
    requires k + 2 == |s| || s[k + 2] == ' '
    ensures StepValue(s, k) == 16 * HexDigitValue(s[k]) + HexDigitValue(s[k + 1]) && NextCursor(s, k) == k + 3
  {
    StrToUlOfByteToken(s, k);
    assert s[k] != '?';
  }

  /** Token t is spelled at position k and followed by a space or by the end of the text. */
  predicate TokenAt(s: string, k: nat, t: PatternToken)
  {
    var e := k + |TokenText(t)|;
    e <= |s| && (e == |s| || s[e] == ' ') &&
    match t
    case Wildcard(doubled) => s[k] == '?' && (doubled ==> s[k + 1] == '?')
    case ByteToken(hi, lo) => s[k] == hi && s[k + 1] == lo
  }

  /** From k on the text spells the tokens, one space apart, up to its end. */
  predicate SpelledAt(s: string, k: nat, toks: seq<PatternToken>)
    decreases |toks|
  {
    if toks == [] then k == |s|
    else
      TokenAt(s, k, toks[0]) &&
      if |toks| == 1 then k + |TokenText(toks[0])| == |s|
      else SpelledAt(s, k + |TokenText(toks[0])| + 1, toks[1..])
  }

  /** One step of the walk over a spelled token. */
  lemma CompileStep(s: string, k: nat, t: PatternToken)
    requires ValidToken(t) && TokenAt(s, k, t)
    ensures StepValue(s, k) == TokenValue(t) && NextCursor(s, k) == k + |TokenText(t)| + 1
  {
    match t
    case Wildcard(doubled) => WildcardStep(s, k, doubled);
    case ByteToken(hi, lo) => ByteStep(s, k);
  }

  /** The walk over spelled tokens yields their values, one entry per token. */
  lemma {:induction false} CompileFromSpelled(s: string, k: nat, toks: seq<PatternToken>)
    requires SpelledAt(s, k, toks)
    requires forall t :: t in toks ==> ValidToken(t)
    ensures CompileFrom(s, k) == Meanings(toks)
    decreases |toks|
  {
    if toks != [] {
      var t, rest := toks[0], toks[1..];
      var next := k + |TokenText(t)| + 1;
      assert t in toks;
      assert TokenAt(s, k, t);
      CompileStep(s, k, t);
      assert CompileFrom(s, k) == [TokenValue(t)] + CompileFrom(s, next);
      if rest != [] {
        assert SpelledAt(s, next, rest);
        assert forall u :: u in rest ==> u in toks;
        CompileFromSpelled(s, next, rest);
      }
    }
  }

  /** The text of the first token of a rendered list, and what follows it. */
  lemma RenderHead(s: string, k: nat, toks: seq<PatternToken>)
    requires k <= |s| && s[k..] == Render(toks) && toks != []
    ensures k + |TokenText(toks[0])| <= |s|
    ensures s[k..k + |TokenText(toks[0])|] == TokenText(toks[0])
    ensures |toks| == 1 ==> k + |TokenText(toks[0])| == |s|
    ensures |toks| > 1 ==> s[k + |TokenText(toks[0])|] == ' ' &&
                           s[k + |TokenText(toks[0])| + 1..] == Render(toks[1..])
  {
    var text := TokenText(toks[0]);
    if |toks| == 1 {
      assert s[k..] == text;
      assert s[k..k + |text|] == s[k..];
    } else {
      assert s[k..] == text + " " + Render(toks[1..]);
      assert s[k..k + |text|] == s[k..][..|text|];
      assert s[k + |text|] == s[k..][|text|];
      assert s[k + |text| + 1..] == s[k..][|text| + 1..];
    }
  }

  /** A token's text at position k, followed by a space or the end, spells the token. */
  lemma TokenSpelled(s: string, k: nat, t: PatternToken)
    requires k + |TokenText(t)| <= |s| && s[k..k + |TokenText(t)|] == TokenText(t)
    requires k + |TokenText(t)| == |s| || s[k + |TokenText(t)|] == ' '
    ensures TokenAt(s, k, t)
  {
    var text := TokenText(t);
    assert s[k] == s[k..k + |text|][0];
    if |text| == 2 {
      assert s[k + 1] == s[k..k + |text|][1];
    }
  }

  /** A rendered token list is spelled by its text. */
  lemma {:induction false} RenderSpelled(s: string, k: nat, toks: seq<PatternToken>)
    requires k <= |s| && s[k..] == Render(toks)
    ensures SpelledAt(s, k, toks)
    decreases |toks|
  {
    if toks == [] {
      assert |s[k..]| == 0;
    } else {
      RenderHead(s, k, toks);
      TokenSpelled(s, k, toks[0]);
      if |toks| > 1 {
        RenderSpelled(s, k + |TokenText(toks[0])| + 1, toks[1..]);
      }
    }
  }

  /**
   * A well-formed pattern compiles to one entry per token, in order: -1 for
   * each wildcard and the byte value 0..255 for each hex token.
   */
  lemma CompileRendered(toks: seq<PatternToken>)
    requires forall t :: t in toks ==> ValidToken(t)
    ensures Compile(Render(toks)) == Meanings(toks)
    ensures |Compile(Render(toks))| == |toks|
    ensures forall i :: 0 <= i < |toks| ==>
      (toks[i].Wildcard? ==> Compile(Render(toks))[i] == -1) &&
      (toks[i].ByteToken? ==> 0 <= Compile(Render(toks))[i] < 256)
  {
    var s := Render(toks);
    assert s[0..] == s;
    RenderSpelled(s, 0, toks);
    CompileFromSpelled(s, 0, toks);
  }

  /**
   * Text that starts with a non-zero digit and no sign converts its whole run
   * of digits, saturating at `ULONG_MAX`.
   */
  lemma StrToUlOfUnsignedRun(s: string)
    requires 0 < |s| && IsHexDigit(s[0]) && s[0] != '0'
    ensures var (m, e) := HexRun(s, 0, 0);
      StrToUl(s, 0) == (if m > ULongMax then ULongMax else m, e)
  {
    assert SkipSpace(s, 0) == 0;
    assert HexRun(s, 0, 0) == HexRun(s, 1, HexDigitValue(s[0]));
  }

  lemma StrToUlAllOnesDigits()
    ensures HexRun("FFFFFFFF", 0, 0) == (0xFFFF_FFFF, 8)
  {
    var s := "FFFFFFFF";
    assert HexRun(s, 8, 0xFFFF_FFFF) == (0xFFFF_FFFF, 8);
    assert HexRun(s, 7, 0xFFF_FFFF) == (0xFFFF_FFFF, 8);
    assert HexRun(s, 6, 0xFF_FFFF) == (0xFFFF_FFFF, 8);
    assert HexRun(s, 5, 0xF_FFFF) == (0xFFFF_FFFF, 8);
    assert HexRun(s, 4, 0xFFFF) == (0xFFFF_FFFF, 8);
    assert HexRun(s, 3, 0xFFF) == (0xFFFF_FFFF, 8);
    assert HexRun(s, 2, 0xFF) == (0xFFFF_FFFF, 8);
    assert HexRun(s, 1, 0xF) == (0xFFFF_FFFF, 8);
    assert HexRun(s, 0, 0) == (0xFFFF_FFFF, 8);
  }

  /** Eight F digits convert to `ULONG_MAX`. */
  lemma StrToUlAllOnes()
    ensures StrToUl("FFFFFFFF", 0) == (0xFFFF_FFFF, 8)
  {
    StrToUlAllOnesDigits();
    StrToUlOfUnsignedRun("FFFFFFFF");
  }


  /** A minus sign negates modulo 2^32: `-1` converts to `ULONG_MAX`. */
  lemma StrToUlNegates()
    ensures StrToUl("-1", 0) == (0xFFFF_FFFF, 2)
  {
    assert SkipSpace("-1", 0) == 0;
    assert HexRun("-1", 2, 1) == (1, 2);
  }

  lemma StrToUlSaturatesDigits()
    ensures HexRun("1FFFFFFFF", 0, 0) == (0x1_FFFF_FFFF, 9)
  {
    var t := "1FFFFFFFF";
    assert HexRun(t, 9, 0x1_FFFF_FFFF) == (0x1_FFFF_FFFF, 9);
    assert HexRun(t, 8, 0x1FFF_FFFF) == (0x1_FFFF_FFFF, 9);
    assert HexRun(t, 7, 0x1FF_FFFF) == (0x1_FFFF_FFFF, 9);
    assert HexRun(t, 6, 0x1F_FFFF) == (0x1_FFFF_FFFF, 9);
    assert HexRun(t, 5, 0x1_FFFF) == (0x1_FFFF_FFFF, 9);
    assert HexRun(t, 4, 0x1FFF) == (0x1_FFFF_FFFF, 9);
    assert HexRun(t, 3, 0x1FF) == (0x1_FFFF_FFFF, 9);
    assert HexRun(t, 2, 0x1F) == (0x1_FFFF_FFFF, 9);
    assert HexRun(t, 1, 0x1) == (0x1_FFFF_FFFF, 9);
    assert HexRun(t, 0, 0) == (0x1_FFFF_FFFF, 9);
  }

  /** A magnitude past `ULONG_MAX` saturates to `ULONG_MAX`. */
  lemma StrToUlSaturates()
    ensures StrToUl("1FFFFFFFF", 0) == (0xFFFF_FFFF, 9)
  {
    StrToUlSaturatesDigits();
    StrToUlOfUnsignedRun("1FFFFFFFF");
  }


  /**
   * Text whose `unsigned long` is all ones, stored in an `int`, yields the
   * wildcard -1: eight F digits, a minus sign before 1, and a run past
   * `ULONG_MAX`, which saturates.
   */
  lemma AllOnesIsWildcard()
    ensures Compile("FFFFFFFF") == [-1]
    ensures Compile("-1") == [-1]
    ensures Compile("1FFFFFFFF") == [-1]
  {
    StrToUlAllOnes();
    StrToUlNegates();
    StrToUlSaturates();
  }

  /** A character that starts no number converts nothing and yields 0. */
  lemma CompileNonDigit()
    ensures Compile("G1") == [0, 1]
  {
    assert HexRun("G1", 0, 0) == (0, 0);
    assert StrToUl("G1", 0) == (0, 0);
    assert HexRun("G1", 2, 1) == (1, 2);
    assert StrToUl("G1", 1) == (1, 2);
  }

  /** A one-digit token is a byte. */
  lemma CompileOneDigit()
    ensures Compile("1") == [1]
  {
    assert HexRun("1", 1, 1) == (1, 1);
    assert StrToUl("1", 0) == (1, 1);
  }

  /** A longer run of digits yields a value that need not be a byte. */
  lemma CompileDigitRun()
    ensures Compile("123") == [0x123]
  {
    assert HexRun("123", 3, 0x123) == (0x123, 3);
    assert HexRun("123", 0, 0) == (0x123, 3);
    StrToUlOfUnsignedRun("123");
  }

  /** `??` and `?` are both wildcards. */
  lemma CompileWildcards()
    ensures Compile("?? ?") == [-1, -1]
  {
    assert CompileFrom("?? ?", 3) == [-1];
  }

  /**
   * Nothing is rejected: a character that starts no number converts nothing
   * and yields 0, a one-digit token is a byte, a longer run of digits yields
   * a value that need not be a byte, and `??` and `?` are both wildcards.
   * Text whose `unsigned long` is all ones as an `int` also yields -1, the
   * wildcard, which matches every byte.
   */
  lemma LenientCompile()
    ensures Compile("G1") == [0, 1]
    ensures Compile("1") == [1]
    ensures Compile("123") == [0x123]
    ensures Compile("?? ?") == [-1, -1]
    ensures Compile("FFFFFFFF") == [-1]
    ensures Compile("-1") == [-1]
    ensures Compile("1FFFFFFFF") == [-1]
  {
    CompileNonDigit();
    CompileOneDigit();
    CompileDigitRun();
    CompileWildcards();
    AllOnesIsWildcard();
  }

}
