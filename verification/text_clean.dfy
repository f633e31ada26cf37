/**
 * The text normaliser `clean_text` of the book recommender: lower-case the
 * text, turn every character outside `[a-zA-Z0-9\s]` into a space, then
 * replace every run of whitespace by one space. It does not trim.
 */
module TextClean {

  /** What `clean_text` is handed: a Python `str`, or any other value. */
  datatype Value = Str(s: string) | NonStr

  predicate IsUpper(c: char) { 'A' <= c <= 'Z' }

  predicate IsLowerLetter(c: char) { 'a' <= c <= 'z' }

  predicate IsDigit(c: char) { '0' <= c <= '9' }

  /** The character class `[a-zA-Z0-9]`. */
  predicate IsAlnum(c: char) { IsUpper(c) || IsLowerLetter(c) || IsDigit(c) }

  /** Python's `\s` on a `str` pattern: the characters for which `str.isspace()` holds. */
  predicate IsSpace(c: char)
  {
    ('\t' <= c <= '\r') || ('\U{1C}' <= c <= ' ') || c == '\U{85}' || c == '\U{A0}'
    || c == '\U{1680}' || ('\U{2000}' <= c <= '\U{200A}') || c == '\U{2028}' || c == '\U{2029}'
    || c == '\U{202F}' || c == '\U{205F}' || c == '\U{3000}'
  }

  /** `str.lower()` restricted to ASCII: only 'A'..'Z' change. */
  function Lower(c: char): (d: char)
    ensures IsAlnum(d) <==> IsAlnum(c)
    ensures IsAlnum(c) ==> IsLowerLetter(d) || IsDigit(d)
    ensures !IsUpper(c) ==> d == c
  {
    if IsUpper(c) then (c as int - 'A' as int + 'a' as int) as char else c
  }

  /** A character `clean_text` may produce: `[a-z0-9 ]`. */
  predicate IsCleanChar(c: char) { IsLowerLetter(c) || IsDigit(c) || c == ' ' }

  /** The letters `[a-z0-9 ]` only. */
  predicate CleanAlphabet(s: string)
  {
    forall i :: 0 <= i < |s| ==> IsCleanChar(s[i])
  }

  /** No two adjacent spaces. */
  predicate NoDoubleSpace(s: string)
  {
    forall i :: 0 <= i < |s| - 1 ==> !(s[i] == ' ' && s[i + 1] == ' ')
  }

  /** The shape of every output of `clean_text`. */
  predicate IsClean(s: string)
  {
    CleanAlphabet(s) && NoDoubleSpace(s)
  }

  // ---------------------------------------------------------------------------
  // The three passes, as the source runs them.
  // ---------------------------------------------------------------------------

  /** `text.lower()`. */
  function LowerAll(s: string): (r: string)
    ensures |r| == |s|
  {
    if s == [] then [] else [Lower(s[0])] + LowerAll(s[1..])
  }

  /** `re.sub(r"[^a-zA-Z0-9\s]", " ", text)`. */
  function MaskSymbols(s: string): (r: string)
    ensures |r| == |s|
  {
    if s == [] then []
    else [if IsAlnum(s[0]) || IsSpace(s[0]) then s[0] else ' '] + MaskSymbols(s[1..])
  }

  /** `s` without its leading whitespace: what a greedy `\s+` leaves behind. */
  function SkipSpace(s: string): (r: string)
    ensures |r| <= |s| && r == s[|s| - |r|..]
    ensures r != [] ==> !IsSpace(r[0])
  {
    if s != [] && IsSpace(s[0]) then SkipSpace(s[1..]) else s
  }

  /**
   * `re.sub(r"\s+", " ", text)`: each maximal whitespace run becomes one
   * space; other characters are copied.
   */
  function CollapseSpace(s: string): (r: string)
    ensures |r| <= |s|
    ensures NoDoubleSpace(r)
    ensures r != [] ==> s != [] && r[0] == (if IsSpace(s[0]) then ' ' else s[0])
    ensures s != [] ==> r != []
    decreases |s|
  {
    if s == [] then []
    else if IsSpace(s[0]) then [' '] + CollapseSpace(SkipSpace(s[1..]))
    else [s[0]] + CollapseSpace(s[1..])
  }

  /** `clean_text(text)`. */
  function CleanText(v: Value): (r: string)
    ensures IsClean(r)
    ensures v.Str? ==> |r| <= |v.s|
    ensures v.NonStr? ==> r == []
  {
    match v
    case NonStr => []
    case Str(s) =>
      CollapseMaskedIsSinglePass(s, false);
      SinglePassAlphabet(s, false);
      CollapseSpace(MaskSymbols(LowerAll(s)))
  }

  // ---------------------------------------------------------------------------
  // An independent one-pass reference: read the raw text once, emit each
  // letter or digit lower-cased, and one space for the first character of
  // each run of other characters.
  // ---------------------------------------------------------------------------

  /** `inGap` is true when the previous input character was not a letter or digit. */
  function SinglePass(s: string, inGap: bool): (r: string)
    decreases |s|
  {
    if s == [] then []
    else if IsAlnum(s[0]) then [Lower(s[0])] + SinglePass(s[1..], false)
    else if inGap then SinglePass(s[1..], true)
    else [' '] + SinglePass(s[1..], true)
  }

  lemma {:induction false} SinglePassAlphabet(s: string, inGap: bool)
    ensures CleanAlphabet(SinglePass(s, inGap))
  {
    if s != [] {
      SinglePassAlphabet(s[1..], !IsAlnum(s[0]));
    }
  }

  /** The letters and digits of `s`, lower-cased, in order. */
  function AlnumLower(s: string): (r: string)
    ensures |r| <= |s|
  {
    if s == [] then []
    else if IsAlnum(s[0]) then [Lower(s[0])] + AlnumLower(s[1..])
    else AlnumLower(s[1..])
  }

  /** `s` with every ' ' removed. */
  function DropSpaces(s: string): (r: string)
  {
    if s == [] then []
    else if s[0] == ' ' then DropSpaces(s[1..])
    else [s[0]] + DropSpaces(s[1..])
  }

  /** The three passes agree with the one-pass reference (general form). */
  lemma {:induction false} CollapseMaskedIsSinglePass(s: string, inGap: bool)
    ensures CollapseSpace(
              if inGap then SkipSpace(MaskSymbols(LowerAll(s))) else MaskSymbols(LowerAll(s)))
            == SinglePass(s, inGap)
  {
    if s != [] {
      var m := MaskSymbols(LowerAll(s));
      assert LowerAll(s)[1..] == LowerAll(s[1..]);
      assert m == [m[0]] + MaskSymbols(LowerAll(s[1..]));
      if IsAlnum(s[0]) {
        assert m[0] == Lower(s[0]) && !IsSpace(m[0]);
        CollapseMaskedIsSinglePass(s[1..], false);
        assert CollapseSpace(m) == [m[0]] + CollapseSpace(m[1..]);
      } else {
        assert IsSpace(m[0]);
        CollapseMaskedIsSinglePass(s[1..], true);
        if inGap {
          assert SkipSpace(m) == SkipSpace(m[1..]);
        } else {
          assert CollapseSpace(m) == [' '] + CollapseSpace(SkipSpace(m[1..]));
        }
      }
    }
  }

  /** `clean_text` on a string is the one-pass reference on that string. */
  lemma CleanTextIsSinglePass(s: string)
    ensures CleanText(Str(s)) == SinglePass(s, false)
  {
    CollapseMaskedIsSinglePass(s, false);
  }

  lemma {:induction false} SinglePassDropSpaces(s: string, inGap: bool)
    ensures DropSpaces(SinglePass(s, inGap)) == AlnumLower(s)
  {
    if s != [] {
      SinglePassDropSpaces(s[1..], !IsAlnum(s[0]));
      if IsAlnum(s[0]) {
        assert Lower(s[0]) != ' ';
        assert DropSpaces([Lower(s[0])] + SinglePass(s[1..], false))
            == [Lower(s[0])] + DropSpaces(SinglePass(s[1..], false));
      } else if !inGap {
        assert DropSpaces([' '] + SinglePass(s[1..], true)) == DropSpaces(SinglePass(s[1..], true));
      }
    }
  }

  /**
   * Removing the spaces from `clean_text(s)` leaves exactly the letters and
   * digits of `s`, lower-cased, in their order.
   */
  lemma CleanTextLetters(s: string)
    ensures DropSpaces(CleanText(Str(s))) == AlnumLower(s)
  {
    CleanTextIsSinglePass(s);
    SinglePassDropSpaces(s, false);
  }

  lemma {:induction false} SinglePassShape(s: string, inGap: bool)
    ensures var r := SinglePass(s, inGap);
      && (r != [] && !inGap ==> (r[0] == ' ' <==> !IsAlnum(s[0])))
      && (r != [] ==> s != [] && (r[|r| - 1] == ' ' <==> !IsAlnum(s[|s| - 1])))
      && (r == [] && s != [] ==> inGap && !IsAlnum(s[|s| - 1]))
  {
    if s != [] {
      SinglePassShape(s[1..], !IsAlnum(s[0]));
      var r := SinglePass(s, inGap);
      var r' := SinglePass(s[1..], !IsAlnum(s[0]));
      if IsAlnum(s[0]) {
        assert r == [Lower(s[0])] + r';
        assert Lower(s[0]) != ' ';
      } else if !inGap {
        assert r == [' '] + r';
      }
    }
  }

  /**
   * `clean_text` does not trim: the output is empty only for empty input; it
   * starts with a space exactly when the input starts with a character that
   * is not a letter or digit, and ends with one exactly when the input does.
   */
  lemma NoTrim(s: string)
    ensures var r := CleanText(Str(s));
      && (r == [] <==> s == [])
      && (s != [] ==> (r[0] == ' ' <==> !IsAlnum(s[0])))
      && (s != [] ==> (r[|r| - 1] == ' ' <==> !IsAlnum(s[|s| - 1])))
  {
    CleanTextIsSinglePass(s);
    SinglePassShape(s, false);
  }

  // ---------------------------------------------------------------------------
  // Idempotence.
  // ---------------------------------------------------------------------------

  lemma {:induction false} LowerFixesClean(s: string)
    requires CleanAlphabet(s)
    ensures LowerAll(s) == s
  {
    if s != [] {
      LowerFixesClean(s[1..]);
    }
  }

  lemma {:induction false} MaskFixesClean(s: string)
    requires CleanAlphabet(s)
    ensures MaskSymbols(s) == s
  {
    if s != [] {
      MaskFixesClean(s[1..]);
    }
  }

  /** Among `[a-z0-9 ]`, only ' ' is whitespace. */
  lemma CleanCharSpace(c: char)
    requires IsCleanChar(c)
    ensures IsSpace(c) <==> c == ' '
  {
  }

  lemma CleanTail(s: string)
    requires IsClean(s) && s != []
    ensures IsClean(s[1..])
    ensures s[0] == ' ' && |s| > 1 ==> !IsSpace(s[1])
  {
    var t := s[1..];
    forall i | 0 <= i < |t| ensures IsCleanChar(t[i]) {
      assert t[i] == s[i + 1];
    }
    forall i | 0 <= i < |t| - 1 ensures !(t[i] == ' ' && t[i + 1] == ' ') {
      assert t[i] == s[i + 1] && t[i + 1] == s[i + 2];
    }
    if s[0] == ' ' && |s| > 1 {
      assert IsCleanChar(s[1]) && !(s[0] == ' ' && s[1] == ' ');
      CleanCharSpace(s[1]);
    }
  }

  lemma {:induction false} CollapseFixesClean(s: string)
    requires IsClean(s)
    ensures CollapseSpace(s) == s
  {
    if s != [] {
      var t := s[1..];
      CleanTail(s);
      CollapseFixesClean(t);
      CleanCharSpace(s[0]);
      if s[0] == ' ' {
        assert SkipSpace(t) == t;
      }
      assert s == [s[0]] + t;
    }
  }

  /** `clean_text(clean_text(x)) == clean_text(x)`. */
  lemma Idempotent(v: Value)
    ensures CleanText(Str(CleanText(v))) == CleanText(v)
  {
    var r := CleanText(v);
    LowerFixesClean(r);
    MaskFixesClean(r);
    CollapseFixesClean(r);
  }

  /** `"The Hobbit!!"` cleans with its trailing space kept. */
  lemma HobbitExample()
    ensures CleanText(Str("The Hobbit!!")) == "the hobbit "
  {
    HobbitHead("The Hobbit!!");
    CleanTextIsSinglePass("The Hobbit!!");
  }

  /**
   * The steps of the example, one stretch of the text at a time. Each takes
   * its text as a parameter fixed by `requires`, so the verifier does not
   * unroll the literal in one go.
   */
  lemma HobbitHead(s: string)
    requires s == "The Hobbit!!"
    ensures SinglePass(s, false) == "the hobbit "
  {
    HobbitMiddle(s[1..]);
    assert [s[0]] + s[1..] == s;
  }

  lemma HobbitMiddle(s: string)
    requires s == "he Hobbit!!"
    ensures SinglePass(s, false) == "he hobbit "
  {
    HobbitTail(s[3..]);
    assert SinglePass(s[2..], false) == " hobbit ";
  }

  lemma HobbitTail(s: string)
    requires s == "Hobbit!!"
    ensures SinglePass(s, true) == "hobbit "
  {
    assert s[7..] == "!" && SinglePass(s[7..], true) == "";
    assert SinglePass(s[6..], false) == " ";
    assert SinglePass(s[5..], false) == "t ";
    assert SinglePass(s[4..], false) == "it ";
    assert SinglePass(s[2..], false) == "bbit ";
  }

  // ---------------------------------------------------------------------------
  // Space-separated tokens.
  // ---------------------------------------------------------------------------

  /** The longest prefix of `s` without a space. */
  function LeadingWord(s: string): (w: string)
    ensures |w| <= |s| && w == s[..|w|]
    ensures forall k :: 0 <= k < |w| ==> w[k] != ' '
    ensures |w| < |s| ==> s[|w|] == ' '
  {
    if s == [] || s[0] == ' ' then [] else [s[0]] + LeadingWord(s[1..])
  }

  /** The non-empty space-separated tokens of `s`, in order (`s.split()` on ' '). */
  function Words(s: string): (ws: seq<string>)
    decreases |s|
  {
    if s == [] then []
    else if s[0] == ' ' then Words(s[1..])
    else
      var w := LeadingWord(s);
      [w] + Words(s[|w|..])
  }

  lemma {:induction false} LeadingWordBeforeSpace(a: string, b: string)
    ensures LeadingWord(a + " " + b) == LeadingWord(a)
  {
    if a != [] && a[0] != ' ' {
      assert (a + " " + b)[1..] == a[1..] + " " + b;
      LeadingWordBeforeSpace(a[1..], b);
    }
  }

  /** Joining two strings with a space joins their token lists. */
  lemma {:induction false} WordsJoin(a: string, b: string)
    ensures Words(a + " " + b) == Words(a) + Words(b)
    decreases |a|
  {
    var s := a + " " + b;
    if a == [] {
      assert s[1..] == b;
    } else if a[0] == ' ' {
      assert s[1..] == a[1..] + " " + b;
      WordsJoin(a[1..], b);
    } else {
      var w := LeadingWord(a);
      LeadingWordBeforeSpace(a, b);
      assert |w| > 0;
      assert s[|w|..] == a[|w|..] + " " + b;
      WordsJoin(a[|w|..], b);
    }
  }
}
