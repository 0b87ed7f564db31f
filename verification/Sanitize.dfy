/** Control-character escaping for text that ends up in front of an operator, and exactly how far
    it can be undone. */
module Sanitize {
  import opened Wrappers

  /** The Unicode category Cc: C0, DEL and C1. */
  predicate IsControl(c: char) {
    c as int < 0x20 || 0x7F <= c as int <= 0x9F
  }

  predicate HasControl(s: string) {
    exists i :: 0 <= i < |s| && IsControl(s[i])
  }

  const HEX := "0123456789abcdef"

  /** `\u{XXXX}`: four lower-case hexadecimal digits are enough for every control character. */
  function Spelling(c: char): string
    requires IsControl(c)
  {
    "\\u{00" + [HEX[c as int / 16], HEX[c as int % 16]] + "}"
  }

  /** What one character becomes. */
  function EscapeChar(c: char): string {
    if IsControl(c) then Spelling(c) else [c]
  }

  function Escape(s: string): string {
    if s == "" then "" else EscapeChar(s[0]) + Escape(s[1..])
  }

  method ControlEscape(input: string) returns (out: string)
    ensures out == Escape(input)
    ensures forall i :: 0 <= i < |out| ==> ' ' <= out[i] <= '~' || out[i] as int >= 0xA0
    ensures out == input <==> forall i :: 0 <= i < |input| ==> ' ' <= input[i] <= '~' || input[i] as int >= 0xA0
  {
    EscapedIsClean(input);
    if !exists i :: 0 <= i < |input| && IsControl(input[i]) {
      CleanIsUntouched(input);
      return input;
    }
    out := "";
    for i := 0 to |input|
      invariant out == Escape(input[..i])
    {
      EscapeAppend(input[..i], [input[i]]);
      assert input[..i + 1] == input[..i] + [input[i]];
      assert Escape([input[i]]) == EscapeChar(input[i]) by {
        assert [input[i]][1..] == "";
        assert EscapeChar(input[i]) + "" == EscapeChar(input[i]);
      }
      if IsControl(input[i]) {
        out := out + Spelling(input[i]);
      } else {
        out := out + [input[i]];
      }
    }
    assert input[..|input|] == input;
  }

  /** Exactly the characters of C0, DEL and C1 are spelled out: as `\u{`, four digits that are their number in
      hexadecimal, and `}`. */
  lemma WhatIsSpelled(c: char)
    ensures var n := c as int;
            if n <= 0x1F || 0x7F <= n <= 0x9F then
              EscapeChar(c) == "\\u{00" + [HEX[n / 16], HEX[n % 16]] + "}"
            else EscapeChar(c) == [c]
  {
  }

  /** Escaping a joined text is joining the escaped parts. */
  lemma {:induction false} EscapeAppend(a: string, b: string)
    ensures Escape(a + b) == Escape(a) + Escape(b)
  {
    if a == "" {
      assert a + b == b;
    } else {
      assert (a + b)[1..] == a[1..] + b;
      EscapeAppend(a[1..], b);
      assert EscapeChar(a[0]) + (Escape(a[1..]) + Escape(b)) == EscapeChar(a[0]) + Escape(a[1..]) + Escape(b);
    }
  }

  /** Text without control characters passes through unchanged: the fast path is the loop. */
  lemma {:induction false} CleanIsUntouched(s: string)
    requires !HasControl(s)
    ensures Escape(s) == s
  {
    if s != "" {
      assert !HasControl(s[1..]) by {
        assert forall i :: 0 <= i < |s[1..]| ==> s[1..][i] == s[i + 1];
      }
      CleanIsUntouched(s[1..]);
      assert s == [s[0]] + s[1..];
    }
  }

  lemma {:induction false} EscapedIsClean(s: string)
    ensures !HasControl(Escape(s))
  {
    if s != "" {
      EscapedIsClean(s[1..]);
      var head := EscapeChar(s[0]);
      forall i | 0 <= i < |Escape(s)|
        ensures !IsControl(Escape(s)[i])
      {
        if i >= |head| {
          assert Escape(s)[i] == Escape(s[1..])[i - |head|];
        } else {
          assert Escape(s)[i] == head[i];
        }
      }
    }
  }

  lemma EscapeIsIdempotent(s: string)
    ensures Escape(Escape(s)) == Escape(s)
  {
    EscapedIsClean(s);
    CleanIsUntouched(Escape(s));
  }

  // ---------------------------------------------------------------------------
  // Undoing it
  // ---------------------------------------------------------------------------

  function HexValue(c: char): (v: Option<nat>)
    ensures v.Some? ==> v.value < 16 && HEX[v.value] == c
  {
    if '0' <= c <= '9' then Some(c as int - '0' as int)
    else if 'a' <= c <= 'f' then Some(c as int - 'a' as int + 10)
    else None
  }

  /** The control character that the head of `s` spells out, if it does. */
  function Spelled(s: string): (r: Option<char>)
    ensures r.Some? ==> IsControl(r.value) && |s| >= 8 && s[..8] == Spelling(r.value)
  {
    if |s| < 8 || s[..5] != "\\u{00" || s[7] != '}' then None
    else match (HexValue(s[5]), HexValue(s[6]))
         case (Some(high), Some(low)) =>
           var c := (high * 16 + low) as char;
           if IsControl(c) then (SpelledParts(s, c); Some(c)) else None
         case _ => None
  }

  lemma SpelledParts(s: string, c: char)
    requires |s| >= 8 && s[..5] == "\\u{00" && s[7] == '}' && IsControl(c)
    requires s[5] == HEX[c as int / 16] && s[6] == HEX[c as int % 16]
    ensures s[..8] == Spelling(c)
  {
    assert s[..8] == s[..5] + [s[5], s[6]] + [s[7]];
  }

  /** Every spelling read back as the character it stands for, from the left. */
  function Unescape(s: string): string {
    if s == "" then ""
    else match Spelled(s)
         case Some(c) => [c] + Unescape(s[8..])
         case None => [s[0]] + Unescape(s[1..])
  }

  /** The raw text itself spells out a control character somewhere. */
  predicate SpellsControl(s: string) {
    exists i :: 0 <= i < |s| && Spelled(s[i..]).Some?
  }

  lemma SpellingIsRead(c: char, rest: string)
    requires IsControl(c)
    ensures Spelled(Spelling(c) + rest) == Some(c)
  {
    var s := Spelling(c) + rest;
    assert s[..5] == "\\u{00";
    assert s[5] == HEX[c as int / 16] && s[6] == HEX[c as int % 16] && s[7] == '}';
    assert HexValue(s[5]) == Some(c as int / 16);
    assert HexValue(s[6]) == Some(c as int % 16);
  }

  lemma {:induction false} LiteralEscape(s: string, k: nat)
    requires k <= |Escape(s)| && forall i :: 0 <= i < k ==> Escape(s)[i] != '\\'
    ensures k <= |s| && s[..k] == Escape(s)[..k]
  {
    if k > 0 {
      var head := EscapeChar(s[0]);
      assert Escape(s)[0] == head[0];
      assert head == [s[0]];
      assert Escape(s)[1..] == Escape(s[1..]);
      assert forall i :: 0 <= i < k - 1 ==> Escape(s[1..])[i] == Escape(s)[i + 1];
      LiteralEscape(s[1..], k - 1);
      assert s[..k] == [s[0]] + s[1..][..k - 1];
      assert Escape(s)[..k] == [s[0]] + Escape(s[1..])[..k - 1];
    }
  }

  lemma {:induction false} LiteralUnescape(s: string, k: nat)
    requires k <= |Unescape(s)| && forall i :: 0 <= i < k ==> !IsControl(Unescape(s)[i])
    ensures k <= |s| && s[..k] == Unescape(s)[..k]
  {
    if k > 0 {
      assert !IsControl(Unescape(s)[0]);
      assert Spelled(s).None?;
      assert Unescape(s)[1..] == Unescape(s[1..]);
      assert forall i :: 0 <= i < k - 1 ==> Unescape(s[1..])[i] == Unescape(s)[i + 1];
      LiteralUnescape(s[1..], k - 1);
      assert s[..k] == [s[0]] + s[1..][..k - 1];
      assert Unescape(s)[..k] == [s[0]] + Unescape(s[1..])[..k - 1];
    }
  }

  /** A spelling holds one backslash, its first character, and no control character. */
  lemma SpelledShape(s: string)
    requires Spelled(s).Some?
    ensures s[0] == '\\' && forall i :: 1 <= i < 8 ==> s[i] != '\\' && !IsControl(s[i])
  {
    var spelling := Spelling(Spelled(s).value);
    assert forall i :: 0 <= i < 8 ==> s[i] == spelling[i];
  }

  lemma SpelledByHead(s: string, t: string)
    requires Spelled(s).Some? && |t| >= 8 && t[..8] == s[..8]
    ensures Spelled(t) == Spelled(s)
  {
    SpellingIsRead(Spelled(s).value, t[8..]);
    assert t == Spelling(Spelled(s).value) + t[8..];
  }

  /** A text that spells no control character comes back whole. */
  lemma {:induction false} UnescapeUndoesEscape(s: string)
    requires !SpellsControl(s)
    ensures Unescape(Escape(s)) == s
  {
    if s != "" {
      var e, rest := Escape(s), Escape(s[1..]);
      assert s[0..] == s;
      forall i | 0 <= i < |s[1..]|
        ensures Spelled(s[1..][i..]).None?
      {
        assert s[1..][i..] == s[i + 1..];
      }
      UnescapeUndoesEscape(s[1..]);
      if IsControl(s[0]) {
        SpellingIsRead(s[0], rest);
        assert e[8..] == rest;
      } else {
        assert e[1..] == rest;
        if Spelled(e).Some? {
          SpelledShape(e);
          assert forall i :: 0 <= i < 7 ==> rest[i] == e[i + 1];
          LiteralEscape(s[1..], 7);
          assert s[..8] == [s[0]] + s[1..][..7];
          assert e[..8] == [s[0]] + rest[..7];
          SpelledByHead(e, s);
        }
      }
      assert s == [s[0]] + s[1..];
    }
  }

  /** Nothing read back spells a control character. */
  lemma {:induction false} UnescapedSpellsNothing(s: string)
    ensures !SpellsControl(Unescape(s))
  {
    if s != "" {
      var u := Unescape(s);
      var rest := Unescape(if Spelled(s).Some? then s[8..] else s[1..]);
      UnescapedSpellsNothing(if Spelled(s).Some? then s[8..] else s[1..]);
      assert u[1..] == rest;
      forall i | 0 <= i < |u|
        ensures Spelled(u[i..]).None?
      {
        if i > 0 {
          assert u[i..] == rest[i - 1..];
        } else if Spelled(u).Some? {
          SpelledShape(u);
          assert Spelled(s).None?;
          assert forall i :: 0 <= i < 7 ==> rest[i] == u[i + 1];
          LiteralUnescape(s[1..], 7);
          assert s[..8] == [s[0]] + s[1..][..7];
          assert u[..8] == [s[0]] + rest[..7];
          SpelledByHead(u, s);
        } else {
          assert u[0..] == u;
        }
      }
    }
  }

  /** Escaping again what was read back restores the line, whatever the line. */
  lemma {:induction false} EscapeUndoesUnescape(line: string)
    requires !HasControl(line)
    ensures Escape(Unescape(line)) == line
  {
    if line != "" {
      var n := if Spelled(line).Some? then 8 else 1;
      assert !HasControl(line[n..]) by {
        assert forall i :: 0 <= i < |line[n..]| ==> line[n..][i] == line[i + n];
      }
      EscapeUndoesUnescape(line[n..]);
      assert Unescape(line)[1..] == Unescape(line[n..]);
      assert line == line[..n] + line[n..];
    }
  }

  /** The recorded text gives back the raw one exactly when the raw one spells no control
      character. */
  lemma WhatCanBeRecovered(s: string)
    ensures Unescape(Escape(s)) == s <==> !SpellsControl(s)
  {
    UnescapedSpellsNothing(Escape(s));
    if !SpellsControl(s) {
      UnescapeUndoesEscape(s);
    }
  }

  /** The three characters that open every spelling stand at `i`. */
  predicate OpensAt(s: string, i: nat) {
    i + 2 < |s| && s[i] == '\\' && s[i + 1] == 'u' && s[i + 2] == '{'
  }

  lemma SpelledOpens(s: string, i: nat)
    requires i < |s| && Spelled(s[i..]).Some?
    ensures OpensAt(s, i)
  {
    assert s[i..][..5] == "\\u{00";
    assert s[i] == s[i..][..5][0] && s[i + 1] == s[i..][..5][1] && s[i + 2] == s[i..][..5][2];
  }

  /** In particular, a raw text that nowhere reads like the start of a spelling is recovered. */
  lemma WithoutBraceIsRecovered(s: string)
    requires forall i :: 0 <= i < |s| ==> !OpensAt(s, i)
    ensures Unescape(Escape(s)) == s
  {
    forall i | 0 <= i < |s|
      ensures Spelled(s[i..]).None?
    {
      if Spelled(s[i..]).Some? {
        SpelledOpens(s, i);
      }
    }
    UnescapeUndoesEscape(s);
  }

  /** Two texts recorded alike: at least one spells a control character; and every text that does
      has such a double. */
  lemma WhoIsConfused(s: string, t: string)
    ensures s != t && Escape(s) == Escape(t) ==> SpellsControl(s) || SpellsControl(t)
    ensures SpellsControl(s) ==> Unescape(Escape(s)) != s && Escape(Unescape(Escape(s))) == Escape(s)
  {
    WhatCanBeRecovered(s);
    WhatCanBeRecovered(t);
    EscapedIsClean(s);
    EscapeUndoesUnescape(Escape(s));
  }
}
