/** The pure helpers of the line editor: word separators and case-preserving completion. */
module Helper {
  import opened Ascii

  /** A character that ends a word: punctuation, a space or a newline. */
  predicate IsSeparator(c: char)
  {
    IsPunct(c) || c == ' ' || c == '\n'
  }

  /** Separators are exactly punctuation, space and newline; letters, digits and tab are not. */
  lemma SeparatorClasses(c: char)
    ensures IsSeparator(c) <==> IsPunct(c) || c == ' ' || c == '\n'
    ensures IsAlpha(c) || IsDigit(c) || c == '\t' ==> !IsSeparator(c)
  {
  }

  /** The casing pattern of a typed prefix, which decides how a completion is appended. */
  datatype Case = Lowercase | AllCaps | Caps

  /**
   * The first two characters decide: an empty prefix or a lowercase first letter gives
   * Lowercase; an uppercase-looking first letter followed by a lowercase one gives Caps;
   * anything else gives AllCaps. A one-character prefix has the string terminator as its
   * second character, which is not lowercase, so "J" is AllCaps.
   */
  function CaseOf(prefix: string): (r: Case)
    ensures r == Lowercase <==> |prefix| == 0 || IsLower(prefix[0])
    ensures r == Caps <==> |prefix| >= 2 && !IsLower(prefix[0]) && IsLower(prefix[1])
  {
    if |prefix| == 0 || IsLower(prefix[0]) then Lowercase
    else if |prefix| >= 2 && IsLower(prefix[1]) then Caps
    else AllCaps
  }

  /** The concatenated string and the index where the appended suffix begins. */
  datatype Concatenation = Concatenation(text: string, suffixStart: nat)

  /**
   * Appends `completion` minus its first |prefix| characters to `prefix`, upper-casing the
   * appended part when the prefix is AllCaps.
   */
  function StrcatCasesens(prefix: string, completion: string): (r: Concatenation)
    requires |prefix| <= |completion|
    ensures |r.text| == |completion|
    ensures r.suffixStart == |prefix|
    ensures r.text[..|prefix|] == prefix
    ensures CaseOf(prefix) != AllCaps ==> r.text[|prefix|..] == completion[|prefix|..]
    ensures CaseOf(prefix) == AllCaps ==> r.text[|prefix|..] == ToUpperStr(completion[|prefix|..])
  {
    var suffix := completion[|prefix|..];
    Concatenation(prefix + (if CaseOf(prefix) == AllCaps then ToUpperStr(suffix) else suffix), |prefix|)
  }

  /**
   * When the typed prefix matches the stored lowercase completion up to case, the result
   * is the completion itself up to case: nothing is lost or duplicated.
   */
  lemma {:induction false} CasesensKeepsWord(prefix: string, completion: string)
    requires |prefix| <= |completion| && IsLowerWord(completion)
    requires ToLowerStr(prefix) == completion[..|prefix|]
    ensures ToLowerStr(StrcatCasesens(prefix, completion).text) == completion
  {
    var r := StrcatCasesens(prefix, completion);
    forall i | 0 <= i < |completion|
      ensures ToLower(r.text[i]) == completion[i]
    {
      if i < |prefix| {
        assert r.text[i] == prefix[i];
        assert ToLowerStr(prefix)[i] == completion[..|prefix|][i];
      } else if CaseOf(prefix) == AllCaps {
        assert r.text[i] == r.text[|prefix|..][i - |prefix|];
        LowerOfUpper(completion[i]);
      } else {
        assert r.text[i] == r.text[|prefix|..][i - |prefix|];
      }
    }
  }

  /** The completed text has the same casing pattern as the typed prefix. */
  lemma CasesensKeepsCase(prefix: string, completion: string)
    requires |prefix| <= |completion| && IsLowerWord(completion)
    ensures CaseOf(StrcatCasesens(prefix, completion).text) == CaseOf(prefix)
  {
    var r := StrcatCasesens(prefix, completion);
    if |prefix| == 0 {
      assert r.text == completion;
    } else if |prefix| == 1 && |completion| >= 2 {
      assert r.text[0] == prefix[0];
      if CaseOf(prefix) == AllCaps {
        assert r.text[1] == r.text[|prefix|..][0] == ToUpper(completion[1]);
      }
    } else if |prefix| >= 2 {
      assert r.text[0] == prefix[0] && r.text[1] == prefix[1];
    }
  }

  /** Completing "jav", "Jav", "JAV" and "J" against the stored word "java". */
  lemma CasesensExamples()
    ensures StrcatCasesens("jav", "java").text == "java"
    ensures StrcatCasesens("Jav", "java").text == "Java"
    ensures StrcatCasesens("JAV", "java").text == "JAVA"
    ensures StrcatCasesens("J", "java").text == "JAVA"
  {
    assert ToUpperStr("a") == "A";
    assert ToUpperStr("ava") == "AVA";
  }
}
