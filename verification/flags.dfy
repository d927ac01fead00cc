/**
  `str2bool`: a configuration string read as a yes/no flag. Lower-casing
  is modelled on ASCII letters only; see the README for why that gives the
  same answer as Python's full Unicode `str.lower` here.
 */
module Flags {

  predicate IsUpper(c: char) {
    'A' <= c <= 'Z'
  }

  /** `c.lower()` for an ASCII letter; every other character is left alone. */
  function LowerChar(c: char): (l: char)
    ensures IsUpper(c) ==> l as int == c as int + 32
    ensures !IsUpper(c) ==> l == c
  {
    if IsUpper(c) then (c as int + 32) as char else c
  }

  function Lower(s: string): (l: string)
    ensures |l| == |s|
    ensures forall i :: 0 <= i < |s| ==> l[i] == LowerChar(s[i])
  {
    if |s| == 0 then [] else [LowerChar(s[0])] + Lower(s[1..])
  }

  /** The spellings that read as true, once lower-cased. */
  const TrueWords: set<string> := {"yes", "true", "t", "1"}

  /** `v.lower() in ("yes", "true", "t", "1")`. */
  function Str2Bool(v: string): bool {
    Lower(v) in TrueWords
  }

  /** `c` is the lower-case letter `lc` or its capital. */
  predicate CaseOf(c: char, lc: char)
    requires 'a' <= lc <= 'z'
  {
    c == lc || c as int == lc as int - 32
  }

  lemma LowerCharSpells(c: char, lc: char)
    requires 'a' <= lc <= 'z'
    ensures LowerChar(c) == lc <==> CaseOf(c, lc)
  {
  }

  /**
    The strings read as true are exactly `1`, `t`, `yes` and `true` with
    any mix of upper- and lower-case letters; everything else is false.
   */
  lemma {:induction false} Str2BoolSpec(v: string)
    ensures Str2Bool(v) <==>
      || (|v| == 1 && (v[0] == '1' || CaseOf(v[0], 't')))
      || (|v| == 3 && CaseOf(v[0], 'y') && CaseOf(v[1], 'e') && CaseOf(v[2], 's'))
      || (|v| == 4 && CaseOf(v[0], 't') && CaseOf(v[1], 'r') && CaseOf(v[2], 'u') && CaseOf(v[3], 'e'))
  {
    var l := Lower(v);
    if |v| == 1 {
      LowerCharSpells(v[0], 't');
      assert l == "t" <==> l[0] == 't';
      assert l == "1" <==> l[0] == '1';
      assert LowerChar(v[0]) == '1' <==> v[0] == '1';
    } else if |v| == 3 {
      LowerCharSpells(v[0], 'y');
      LowerCharSpells(v[1], 'e');
      LowerCharSpells(v[2], 's');
      assert l == "yes" <==> l[0] == 'y' && l[1] == 'e' && l[2] == 's';
    } else if |v| == 4 {
      LowerCharSpells(v[0], 't');
      LowerCharSpells(v[1], 'r');
      LowerCharSpells(v[2], 'u');
      LowerCharSpells(v[3], 'e');
      assert l == "true" <==> l[0] == 't' && l[1] == 'r' && l[2] == 'u' && l[3] == 'e';
    }
  }

  /** Lower-casing twice is lower-casing once, so the flag ignores case entirely. */
  lemma CaseInsensitive(v: string)
    ensures Lower(Lower(v)) == Lower(v)
    ensures Str2Bool(Lower(v)) == Str2Bool(v)
  {
  }
}
