// What the rules of the stemmer say, told without the tables and predicates they are
// written with: for every stem, and for the words of the comments in Stemmer.java.
module StemmerMeaning {
  import opened StemmerSpec
  import Stemmer

  // ---- Letters ----

  lemma LetterMeans(w: Word, i: nat)
    requires i < |w|
    ensures Cons(w, i) <==> w[i] !in "aeiou" && !(w[i] == 'y' && i > 0 && Cons(w, i - 1))
  {
  }

  lemma EndsJoined(x: Word, s: Word)
    ensures Ends(x + s, s) && Before(x + s, s) == x
  {
  }

  // Two words that end differently.
  lemma EndsNot(w: Word, s: Word, i: nat)
    requires 1 <= i <= |s| && (|w| < |s| || w[|w| - i] != s[|s| - i])
    ensures !Ends(w, s)
  {
    if Ends(w, s) { Stemmer.EndsAt(w, s, i); }
  }

  // ---- Step 1 ----

  // -sses loses two letters, -ies too, -ss nothing, and any other -s goes.
  lemma PluralSses(x: Word)
    ensures Plural(x + "sses") == x + "ss"
  {
    EndsJoined(x, "sses");
  }

  lemma PluralIes(x: Word)
    ensures Plural(x + "ies") == x + "i"
  {
    EndsJoined(x, "ies");
    EndsNot(x + "ies", "sses", 3);
    hide Ends;
  }

  lemma PluralSs(x: Word)
    ensures Plural(x + "ss") == x + "ss"
  {
    EndsJoined(x, "ss");
    EndsNot(x + "ss", "sses", 2);
    EndsNot(x + "ss", "ies", 2);
    hide Ends;
  }

  lemma PluralS(w: Word)
    requires w != [] && w[|w| - 1] == 's' && (|w| == 1 || w[|w| - 2] != 's')
    requires !Ends(w, "ies") && !Ends(w, "sses")
    ensures Plural(w) == w[..|w| - 1]
  {
    EndsNot(w, "ss", 2);
    assert w[|w| - 1..] == "s";
  }

  lemma PluralOther(w: Word)
    requires w == [] || w[|w| - 1] != 's'
    ensures Plural(w) == w
  {
    EndsNot(w, "sses", 1);
    EndsNot(w, "ies", 1);
    EndsNot(w, "ss", 1);
    EndsNot(w, "s", 1);
  }

  // What becomes of a stem that has lost -ed or -ing.
  ghost predicate Restores(x: Word, r: Word) {
    if Ends(x, "at") || Ends(x, "bl") || Ends(x, "iz") then r == x + "e"
    else if |x| >= 2 && x[|x| - 1] == x[|x| - 2] && Cons(x, |x| - 1) then
      // A double consonant becomes a single one, but for l, s and z.
      if x[|x| - 1] in "lsz" then r == x else r + [x[|x| - 1]] == x
    else if Measure(x) == 1 && ShortEnd(x) then r == x + "e"
    else r == x
  }

  lemma PastMeans(x: Word)
    requires HasVowel(x)
    ensures Restores(x, Past(x + "ing"))
    ensures (x == [] || x[|x| - 1] != 'e') ==> Restores(x, Past(x + "ed"))
  {
    EndsJoined(x, "ing");
    EndsJoined(x, "ed");
    EndsNot(x + "ing", "eed", 1);
    EndsNot(x + "ing", "ed", 1);
    if x == [] || x[|x| - 1] != 'e' { EndsNot(x + "ed", "eed", 3); }
    TidiedMeans(x);
    hide Tidied, HasVowel, Restores;
  }

  lemma TidiedMeans(x: Word)
    ensures Restores(x, Tidied(x))
  {
    if |x| >= 2 { assert x[..|x| - 1] + [x[|x| - 1]] == x; }
  }

  // Without a vowel in front of them, -ing and -ed stay; -eed loses its d after a measure.
  lemma PastStays(x: Word)
    ensures !HasVowel(x) ==> Past(x + "ing") == x + "ing"
    ensures !HasVowel(x) && (x == [] || x[|x| - 1] != 'e') ==> Past(x + "ed") == x + "ed"
    ensures Past(x + "eed") == if Measure(x) > 0 then x + "ee" else x + "eed"
  {
    EndsJoined(x, "ing");
    EndsJoined(x, "ed");
    EndsJoined(x, "eed");
    EndsNot(x + "ing", "eed", 1);
    EndsNot(x + "ing", "ed", 1);
    if x == [] || x[|x| - 1] != 'e' { EndsNot(x + "ed", "eed", 3); }
    hide HasVowel, Tidied, Measure;
  }

  lemma PastOther(w: Word)
    requires w == [] || (w[|w| - 1] != 'd' && w[|w| - 1] != 'g')
    ensures Past(w) == w
  {
    EndsNot(w, "eed", 1);
    EndsNot(w, "ed", 1);
    EndsNot(w, "ing", 1);
  }

  // ---- Steps 2 and 6 ----

  lemma FinalYMeans(x: Word, c: char)
    ensures FinalY(x + "y") == if HasVowel(x) then x + "i" else x + "y"
    ensures c != 'y' ==> FinalY(x + [c]) == x + [c]
  {
    EndsJoined(x, "y");
    if c != 'y' { EndsNot(x + [c], "y", 1); }
  }

  lemma FinalEMeans(x: Word, c: char)
    ensures Measure(x) > 1 ==> FinalE(x + "e") == x
    ensures Measure(x) == 1 ==> FinalE(x + "e") == if ShortEnd(x) then x + "e" else x
    ensures Measure(x) == 0 ==> FinalE(x + "e") == x + "e"
    ensures c != 'e' ==> FinalE(x + [c]) == x + [c]
  {
    EndsJoined(x, "e");
    if c != 'e' { EndsNot(x + [c], "e", 1); }
  }

  lemma FinalLMeans(x: Word, c: char)
    ensures FinalL(x + "ll") == if Measure(x + "ll") > 1 then x + "l" else x + "ll"
    ensures c != 'l' ==> FinalL(x + [c]) == x + [c]
    ensures x != [] && x[|x| - 1] != 'l' ==> FinalL(x + "l") == x + "l"
  {
    EndsJoined(x + "l", "l");
    assert x + "ll" == x + "l" + "l";
    if c != 'l' { EndsNot(x + [c], "l", 1); }
  }

  // ---- Steps 3 to 5 ----

  // The tables have these rows and no others.
  lemma RowsListed(s: Word, t: Word)
    ensures Rule(Third, s, t) <==> (s, t) in {
      ("ational", "ate"), ("tional", "tion"), ("enci", "ence"), ("anci", "ance"), ("izer", "ize"), ("bli", "ble"),
      ("alli", "al"), ("entli", "ent"), ("eli", "e"), ("ousli", "ous"), ("ization", "ize"), ("ation", "ate"),
      ("ator", "ate"), ("alism", "al"), ("iveness", "ive"), ("fulness", "ful"), ("ousness", "ous"),
      ("aliti", "al"), ("iviti", "ive"), ("biliti", "ble"), ("logi", "log")}
    ensures Rule(Fourth, s, t) <==> (s, t) in {
      ("icate", "ic"), ("ative", ""), ("alize", "al"), ("iciti", "ic"), ("ical", "ic"), ("ful", ""), ("ness", "")}
    ensures Rule(Fifth, s, t) <==> t == "" && s in {
      "al", "ance", "ence", "er", "ic", "able", "ible", "ant", "ement", "ment", "ent", "ion", "ou", "ism",
      "ate", "iti", "ous", "ive", "ize"}
  {
  }

  // Behind a stem of more than the given measure, s is replaced by t; otherwise it stays.
  ghost predicate Replaces(table: Table, x: Word, s: Word, t: Word, least: nat) {
    TableStep(table, x + s, if Measure(x) > least then x + t else x + s)
  }

  lemma Replaced(table: Table, x: Word, s: Word, t: Word)
    requires !table.Fifth? && Rule(table, s, t) && forall s' :: Stemmer.Shadows(s', s) ==> !Ends(x + s, s')
    ensures Replaces(table, x, s, t, 0)
  {
    EndsJoined(x, s);
    Stemmer.FoundLongest(table, x + s, s, t);
    Stemmer.StepTaken(table, x + s, s, t);
  }

  lemma Dropped(x: Word, s: Word)
    requires Rule(Fifth, s, "") && forall s' :: Stemmer.Shadows(s', s) ==> !Ends(x + s, s')
    requires s == "ion" ==> x != [] && (x[|x| - 1] == 's' || x[|x| - 1] == 't')
    ensures Replaces(Fifth, x, s, "", 1)
  {
    EndsJoined(x, s);
    Stemmer.FoundLongest(Fifth, x + s, s, "");
    Stemmer.StepDropped(x + s, s);
    assert x + "" == x;
  }

  lemma ThirdMeans(x: Word)
    ensures Replaces(Third, x, "ational", "ate", 0)
    ensures x == [] || x[|x| - 1] != 'a' ==> Replaces(Third, x, "tional", "tion", 0)
    ensures Replaces(Third, x, "enci", "ence", 0) && Replaces(Third, x, "anci", "ance", 0)
    ensures Replaces(Third, x, "izer", "ize", 0)
    ensures Replaces(Third, x, "bli", "ble", 0) && Replaces(Third, x, "alli", "al", 0)
    ensures Replaces(Third, x, "entli", "ent", 0) && Replaces(Third, x, "eli", "e", 0)
    ensures Replaces(Third, x, "ousli", "ous", 0)
  {
    hide Replaces, Ends;
    Replaced(Third, x, "ational", "ate");
    if x == [] || x[|x| - 1] != 'a' {
      EndsNot(x + "tional", "ational", 7);
      Replaced(Third, x, "tional", "tion");
    }
    Replaced(Third, x, "enci", "ence");
    Replaced(Third, x, "anci", "ance");
    Replaced(Third, x, "izer", "ize");
    Replaced(Third, x, "bli", "ble");
    Replaced(Third, x, "alli", "al");
    Replaced(Third, x, "entli", "ent");
    Replaced(Third, x, "eli", "e");
    Replaced(Third, x, "ousli", "ous");
  }

  lemma ThirdMeansToo(x: Word)
    ensures Replaces(Third, x, "ization", "ize", 0)
    ensures !Ends(x, "iz") ==> Replaces(Third, x, "ation", "ate", 0)
    ensures Replaces(Third, x, "ator", "ate", 0) && Replaces(Third, x, "alism", "al", 0)
  {
    NotIzation(x);
    hide Replaces, Ends;
    Replaced(Third, x, "ization", "ize");
    if !Ends(x, "iz") { Replaced(Third, x, "ation", "ate"); }
    Replaced(Third, x, "ator", "ate");
    Replaced(Third, x, "alism", "al");
  }

  lemma NotIzation(x: Word)
    ensures Ends(x + "ation", "ization") ==> Ends(x, "iz")
  {
    var w := x + "ation";
    if Ends(w, "ization") {
      assert w[|w| - 7..][..2] == "iz" && w[|w| - 7..][..2] == x[|x| - 2..];
    }
  }

  lemma ThirdMeansLast(x: Word)
    ensures Replaces(Third, x, "iveness", "ive", 0) && Replaces(Third, x, "fulness", "ful", 0)
    ensures Replaces(Third, x, "ousness", "ous", 0) && Replaces(Third, x, "aliti", "al", 0)
    ensures Replaces(Third, x, "iviti", "ive", 0) && Replaces(Third, x, "biliti", "ble", 0)
    ensures Replaces(Third, x, "logi", "log", 0)
  {
    hide Replaces, Ends;
    Replaced(Third, x, "iveness", "ive");
    Replaced(Third, x, "fulness", "ful");
    Replaced(Third, x, "ousness", "ous");
    Replaced(Third, x, "aliti", "al");
    Replaced(Third, x, "iviti", "ive");
    Replaced(Third, x, "biliti", "ble");
    Replaced(Third, x, "logi", "log");
  }

  lemma FourthMeans(x: Word)
    ensures Replaces(Fourth, x, "icate", "ic", 0) && Replaces(Fourth, x, "ative", "", 0)
    ensures Replaces(Fourth, x, "alize", "al", 0) && Replaces(Fourth, x, "iciti", "ic", 0)
    ensures Replaces(Fourth, x, "ical", "ic", 0) && Replaces(Fourth, x, "ful", "", 0)
    ensures Replaces(Fourth, x, "ness", "", 0)
  {
    hide Replaces, Ends;
    Replaced(Fourth, x, "icate", "ic");
    Replaced(Fourth, x, "ative", "");
    Replaced(Fourth, x, "alize", "al");
    Replaced(Fourth, x, "iciti", "ic");
    Replaced(Fourth, x, "ical", "ic");
    Replaced(Fourth, x, "ful", "");
    Replaced(Fourth, x, "ness", "");
  }

  ghost predicate Drops(x: Word, s: Word) {
    Replaces(Fifth, x, s, "", 1)
  }

  lemma FifthMeans(x: Word)
    ensures Drops(x, "al") && Drops(x, "ance") && Drops(x, "ence") && Drops(x, "er") && Drops(x, "ic")
    ensures Drops(x, "able") && Drops(x, "ible") && Drops(x, "ant") && Drops(x, "ement")
    ensures x == [] || x[|x| - 1] != 'e' ==> Drops(x, "ment")
    ensures x == [] || x[|x| - 1] != 'm' ==> Drops(x, "ent")
  {
    hide Replaces, Ends;
    Dropped(x, "al");
    Dropped(x, "ance");
    Dropped(x, "ence");
    Dropped(x, "er");
    Dropped(x, "ic");
    Dropped(x, "able");
    Dropped(x, "ible");
    Dropped(x, "ant");
    Dropped(x, "ement");
    if x == [] || x[|x| - 1] != 'e' {
      EndsNot(x + "ment", "ement", 5);
      Dropped(x, "ment");
    }
    if x == [] || x[|x| - 1] != 'm' {
      EndsNot(x + "ent", "ement", 4);
      EndsNot(x + "ent", "ment", 4);
      Dropped(x, "ent");
    }
  }

  lemma FifthMeansToo(x: Word)
    ensures Drops(x, "ou") && Drops(x, "ism") && Drops(x, "ate") && Drops(x, "iti")
    ensures Drops(x, "ous") && Drops(x, "ive") && Drops(x, "ize")
  {
    hide Replaces, Ends;
    Dropped(x, "ou");
    Dropped(x, "ism");
    Dropped(x, "ate");
    Dropped(x, "iti");
    Dropped(x, "ous");
    Dropped(x, "ive");
    Dropped(x, "ize");
  }

  // -ion goes after s or t only.
  lemma IonMeans(x: Word)
    ensures x != [] && (x[|x| - 1] == 's' || x[|x| - 1] == 't') ==> Drops(x, "ion")
    ensures x == [] || (x[|x| - 1] != 's' && x[|x| - 1] != 't') ==> TableStep(Fifth, x + "ion", x + "ion")
  {
    EndsJoined(x, "ion");
    hide Replaces, Ends, TableStep;
    if x != [] && (x[|x| - 1] == 's' || x[|x| - 1] == 't') {
      Dropped(x, "ion");
    } else {
      Stemmer.IonStays(x + "ion");
    }
  }
}
