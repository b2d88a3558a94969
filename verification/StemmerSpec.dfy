// The Porter stemming algorithm as its rules state it: suffixes, replacements and
// the conditions on what stands before the suffix.
module StemmerSpec {
  type Word = seq<char>

  predicate VowelLetter(c: char) {
    c == 'a' || c == 'e' || c == 'i' || c == 'o' || c == 'u'
  }

  // Letter i of w counts as a consonant; y does after a vowel or at the beginning.
  predicate Cons(w: Word, i: nat)
    requires i < |w|
    decreases i
  {
    if VowelLetter(w[i]) then false
    else if w[i] == 'y' then i == 0 || !Cons(w, i - 1)
    else true
  }

  // How often a consonant follows a vowel among the first n letters.
  function Turns(w: Word, n: nat): nat
    requires n <= |w|
  {
    if n <= 1 then 0 else Turns(w, n - 1) + (if !Cons(w, n - 2) && Cons(w, n - 1) then 1 else 0)
  }

  // The measure of a word: m in [C](VC)^m[V].
  function Measure(w: Word): nat {
    Turns(w, |w|)
  }

  predicate HasVowel(w: Word) {
    exists i :: 0 <= i < |w| && !Cons(w, i)
  }

  predicate DoubleConsonant(w: Word) {
    |w| >= 2 && w[|w| - 1] == w[|w| - 2] && Cons(w, |w| - 1)
  }

  // Consonant, vowel, consonant at the end, the last one not w, x or y.
  predicate ShortEnd(w: Word) {
    var n := |w|;
    n >= 3 && Cons(w, n - 1) && !Cons(w, n - 2) && Cons(w, n - 3)
    && w[n - 1] != 'w' && w[n - 1] != 'x' && w[n - 1] != 'y'
  }

  predicate Ends(w: Word, s: Word) {
    |s| <= |w| && w[|w| - |s|..] == s
  }

  function Before(w: Word, s: Word): Word
    requires Ends(w, s)
  {
    w[..|w| - |s|]
  }

  // ---- Step 1 ----

  function Plural(w: Word): Word {
    if Ends(w, "sses") then Before(w, "sses") + "ss"
    else if Ends(w, "ies") then Before(w, "ies") + "i"
    else if Ends(w, "ss") then w
    else if Ends(w, "s") then Before(w, "s")
    else w
  }

  // What -ed and -ing leave behind is tidied up.
  function Tidied(w: Word): Word {
    if Ends(w, "at") || Ends(w, "bl") || Ends(w, "iz") then w + "e"
    else if DoubleConsonant(w) then
      if w[|w| - 1] == 'l' || w[|w| - 1] == 's' || w[|w| - 1] == 'z' then w else w[..|w| - 1]
    else if Measure(w) == 1 && ShortEnd(w) then w + "e"
    else w
  }

  function Past(w: Word): Word {
    if Ends(w, "eed") then
      if Measure(Before(w, "eed")) > 0 then Before(w, "eed") + "ee" else w
    else if Ends(w, "ed") then
      if HasVowel(Before(w, "ed")) then Tidied(Before(w, "ed")) else w
    else if Ends(w, "ing") then
      if HasVowel(Before(w, "ing")) then Tidied(Before(w, "ing")) else w
    else w
  }

  // ---- Step 2 ----

  function FinalY(w: Word): Word {
    if Ends(w, "y") && HasVowel(Before(w, "y")) then Before(w, "y") + "i" else w
  }

  // ---- Steps 3 to 5: tables of suffixes ----

  datatype Table = Third | Fourth | Fifth

  // Suffix s is replaced by t.
  predicate Rule(table: Table, s: Word, t: Word) {
    match table
    case Third =>
      (s == "ational" && t == "ate") || (s == "tional" && t == "tion")
      || (s == "enci" && t == "ence") || (s == "anci" && t == "ance")
      || (s == "izer" && t == "ize")
      || (s == "bli" && t == "ble") || (s == "alli" && t == "al") || (s == "entli" && t == "ent")
      || (s == "eli" && t == "e") || (s == "ousli" && t == "ous")
      || (s == "ization" && t == "ize") || (s == "ation" && t == "ate") || (s == "ator" && t == "ate")
      || (s == "alism" && t == "al") || (s == "iveness" && t == "ive")
      || (s == "fulness" && t == "ful") || (s == "ousness" && t == "ous")
      || (s == "aliti" && t == "al") || (s == "iviti" && t == "ive") || (s == "biliti" && t == "ble")
      || (s == "logi" && t == "log")
    case Fourth =>
      (s == "icate" && t == "ic") || (s == "ative" && t == "") || (s == "alize" && t == "al")
      || (s == "iciti" && t == "ic") || (s == "ical" && t == "ic") || (s == "ful" && t == "") || (s == "ness" && t == "")
    case Fifth =>
      t == "" &&
      (s == "al" || s == "ance" || s == "ence" || s == "er" || s == "ic" || s == "able" || s == "ible"
       || s == "ant" || s == "ement" || s == "ment" || s == "ent" || s == "ion" || s == "ou" || s == "ism"
       || s == "ate" || s == "iti" || s == "ous" || s == "ive" || s == "ize")
  }

  // The longest suffix of the table that w ends with.
  ghost predicate Longest(table: Table, w: Word, s: Word, t: Word) {
    && Rule(table, s, t) && Ends(w, s)
    && forall s', t' :: Rule(table, s', t') && Ends(w, s') ==> |s'| <= |s|
  }

  ghost predicate NoSuffix(table: Table, w: Word) {
    forall s, t :: Rule(table, s, t) ==> !Ends(w, s)
  }

  // What must hold of the stem for the suffix to go.
  predicate Condition(table: Table, stem: Word, s: Word) {
    match table
    case Third => Measure(stem) > 0
    case Fourth => Measure(stem) > 0
    case Fifth => Measure(stem) > 1 && (s == "ion" ==> Ends(stem, "s") || Ends(stem, "t"))
  }

  // r is w after one table: only the longest suffix is considered.
  ghost predicate TableStep(table: Table, w: Word, r: Word) {
    (NoSuffix(table, w) && r == w)
    || exists s, t :: Longest(table, w, s, t)
                      && r == if Condition(table, Before(w, s), s) then Before(w, s) + t else w
  }

  // ---- Step 6 ----

  function FinalE(w: Word): Word {
    if Ends(w, "e") then
      var stem := Before(w, "e");
      if Measure(stem) > 1 || (Measure(stem) == 1 && !ShortEnd(stem)) then stem else w
    else w
  }

  function FinalL(w: Word): Word {
    if Ends(w, "l") && DoubleConsonant(w) && Measure(w) > 1 then Before(w, "l") else w
  }

  // The whole algorithm; words of one or two letters are left alone.
  ghost predicate Stems(w: Word, r: Word) {
    if |w| <= 2 then r == w
    else exists x, y, z ::
      && TableStep(Third, FinalY(Past(Plural(w))), x)
      && TableStep(Fourth, x, y)
      && TableStep(Fifth, y, z)
      && r == FinalL(FinalE(z))
  }

  // ---- Every word has one stem ----

  lemma OneReplacement(table: Table, s: Word, t: Word, t': Word)
    requires Rule(table, s, t) && Rule(table, s, t')
    ensures t == t'
  {
  }

  // However the suffixes are tried, one table has one result.
  lemma OneStep(table: Table, w: Word, r: Word, r': Word)
    requires TableStep(table, w, r) && TableStep(table, w, r')
    ensures r == r'
  {
    hide Rule, Condition;
    if !NoSuffix(table, w) {
      var s, t :| Longest(table, w, s, t) && r == if Condition(table, Before(w, s), s) then Before(w, s) + t else w;
      var s', t' :| Longest(table, w, s', t') && r' == if Condition(table, Before(w, s'), s') then Before(w, s') + t' else w;
      assert |s| == |s'| && s == s';
      OneReplacement(table, s, t, t');
    }
  }

  lemma OneStem(w: Word, r: Word, r': Word)
    requires Stems(w, r) && Stems(w, r')
    ensures r == r'
  {
    hide TableStep, Plural, Past, FinalY, FinalE, FinalL;
    if |w| > 2 {
      var v := FinalY(Past(Plural(w)));
      var x, y, z :| TableStep(Third, v, x) && TableStep(Fourth, x, y) && TableStep(Fifth, y, z) && r == FinalL(FinalE(z));
      var x', y', z' :| TableStep(Third, v, x') && TableStep(Fourth, x', y') && TableStep(Fifth, y', z') && r' == FinalL(FinalE(z'));
      OneStep(Third, v, x, x');
      OneStep(Fourth, x, y, y');
      OneStep(Fifth, y, z, z');
    }
  }

  // ---- Letters of a prefix ----

  lemma {:induction false} ConsPrefix(w: Word, v: Word, i: nat)
    requires i < |w| && i < |v| && w[..i + 1] == v[..i + 1]
    ensures Cons(w, i) == Cons(v, i)
    decreases i
  {
    assert w[i] == w[..i + 1][i] == v[..i + 1][i] == v[i];
    if i > 0 {
      assert w[..i] == w[..i + 1][..i] == v[..i + 1][..i] == v[..i];
      ConsPrefix(w, v, i - 1);
    }
  }

  lemma {:induction false} TurnsPrefix(w: Word, v: Word, n: nat)
    requires n <= |w| && n <= |v| && w[..n] == v[..n]
    ensures Turns(w, n) == Turns(v, n)
    decreases n
  {
    if n > 1 {
      assert w[..n - 1] == w[..n][..n - 1] == v[..n][..n - 1] == v[..n - 1];
      TurnsPrefix(w, v, n - 1);
      ConsPrefix(w, v, n - 1);
      ConsPrefix(w, v, n - 2);
    }
  }

  // A positive measure needs two letters at least.
  lemma {:induction false} MeasureBound(w: Word, n: nat)
    requires n <= |w|
    ensures 2 * Turns(w, n) <= n
    ensures n > 0 && Cons(w, n - 1) == false ==> 2 * Turns(w, n) <= n - 1
    decreases n
  {
    if n > 1 {
      MeasureBound(w, n - 1);
    }
  }

  // The measure does not see a final vowel.
  lemma FinalVowel(w: Word)
    requires w != [] && VowelLetter(w[|w| - 1])
    ensures Measure(w) == Measure(w[..|w| - 1])
  {
    TurnsPrefix(w, w[..|w| - 1], |w| - 1);
    if |w| > 1 {
      assert !Cons(w, |w| - 1);
    }
  }
}
