// The words in the comments of Stemmer.java: what step 1 makes of them, and their stems.
module StemmerExamples {
  import opened StemmerSpec
  import opened StemmerMeaning
  import Stemmer

  // ---- Letters, measures, short ends ----

  // Every vowel letter makes a measure of one with a consonant behind it, y behind a
  // consonant does too, and at the beginning it does not.
  lemma Vowels()
    ensures Measure("at") == 1 && Measure("et") == 1 && Measure("it") == 1 && Measure("ot") == 1 && Measure("ut") == 1
    ensures Measure("bcd") == 0 && Measure("cyd") == 1 && Measure("yd") == 0
  {
    assert forall w: Word :: |w| == 2 ==> Turns(w, 2) == if !Cons(w, 0) && Cons(w, 1) then 1 else 0;
    Three("bcd");
    Three("cyd");
  }

  lemma Three(w: Word)
    requires |w| == 3
    ensures Measure(w) == (if !Cons(w, 0) && Cons(w, 1) then 1 else 0) + (if !Cons(w, 1) && Cons(w, 2) then 1 else 0)
  {
    assert Turns(w, 2) == if !Cons(w, 0) && Cons(w, 1) then 1 else 0;
  }

  lemma Four(w: Word)
    requires |w| == 4
    ensures Measure(w) == (if !Cons(w, 0) && Cons(w, 1) then 1 else 0) + (if !Cons(w, 1) && Cons(w, 2) then 1 else 0)
                        + (if !Cons(w, 2) && Cons(w, 3) then 1 else 0)
  {
    assert Turns(w, 2) == if !Cons(w, 0) && Cons(w, 1) then 1 else 0;
    assert Turns(w, 3) == Turns(w, 2) + if !Cons(w, 1) && Cons(w, 2) then 1 else 0;
  }

  lemma ShortEnds()
    ensures ShortEnd("cav") && ShortEnd("lov") && ShortEnd("hop") && ShortEnd("crim")
    ensures !ShortEnd("snow") && !ShortEnd("box") && !ShortEnd("tray")
  {
  }

  // ---- Step 1 ----

  lemma RestoredOnce(x: Word, r: Word, r': Word)
    requires Restores(x, r) && Restores(x, r')
    ensures r == r'
  {
    if |x| >= 2 && r + [x[|x| - 1]] == x && r' + [x[|x| - 1]] == x {
      assert r == x[..|x| - 1] == r';
    }
  }

  lemma Ing(x: Word, r: Word)
    requires HasVowel(x) && Restores(x, r)
    ensures Past(Plural(x + "ing")) == r
  {
    PluralOther(x + "ing");
    PastMeans(x);
    RestoredOnce(x, Past(x + "ing"), r);
  }

  lemma PluralAfter(x: Word, c: char)
    requires x != [] && x[|x| - 1] == c && c != 's' && c != 'e'
    ensures Plural(x + "s") == x
  {
    var w := x + "s";
    EndsNot(w, "ies", 2);
    EndsNot(w, "sses", 2);
    PluralS(w);
    assert w[..|w| - 1] == x;
  }

  lemma Meetings()
    ensures Plural("meetings") == Plural("meeting")
  {
    assert "meetings" == "meeting" + "s";
    PluralAfter("meeting", 'g');
    PluralOther("meeting");
  }

  lemma Plurals()
    ensures Past(Plural("caresses")) == "caress" && Past(Plural("ponies")) == "poni"
    ensures Past(Plural("ties")) == "ti" && Past(Plural("caress")) == "caress" && Past(Plural("cats")) == "cat"
  {
    assert "caresses" == "care" + "sses" && "caress" == "care" + "ss" && "poni" == "pon" + "i" && "ti" == "t" + "i";
    assert "ponies" == "pon" + "ies" && "ties" == "t" + "ies" && "cats" == "cat" + "s";
    PluralSses("care");
    PluralIes("pon");
    PluralIes("t");
    PluralSs("care");
    PluralAfter("cat", 't');
    PastOther("caress");
    PastOther("poni");
    PastOther("ti");
    PastOther("cat");
    hide Plural, Past;
  }

  lemma Feed()
    ensures Past(Plural("feed")) == "feed" && Past(Plural("agreed")) == "agree"
  {
    NoMeasure("f");
    Three("agr");
    assert !Cons("agr", 0);
    hide *;
    PluralOther("feed");
    PluralOther("agreed");
    assert "feed" == "f" + "eed" && "agreed" == "agr" + "eed" && "agree" == "agr" + "ee";
    PastStays("f");
    PastStays("agr");
  }

  lemma NoMeasure(w: Word)
    requires |w| == 1
    ensures Measure(w) == 0
  {
  }

  lemma Disabled()
    ensures Past(Plural("disabled")) == "disable"
  {
    var x := "disabl";
    assert "disabled" == x + "ed" && "disable" == x + "e";
    PluralOther("disabled");
    assert !Cons(x, 1);
    PastMeans(x);
    hide Plural, Past;
  }

  lemma Matting()
    ensures Past(Plural("matting")) == "mat"
  {
    assert HasVowel("matt") && Restores("matt", "mat") by {
      assert !Cons("matt", 1) && Cons("matt", 3) && "mat" + ['t'] == "matt";
    }
    hide HasVowel, Restores, Past, Plural;
    assert "matting" == "matt" + "ing";
    Ing("matt", "mat");
  }

  lemma Milling()
    ensures Past(Plural("milling")) == "mill" && Past(Plural("messing")) == "mess"
  {
    assert "milling" == "mill" + "ing" && !Cons("mill", 1);
    assert "messing" == "mess" + "ing" && !Cons("mess", 1);
    Ing("mill", "mill");
    Ing("mess", "mess");
  }

  // ---- Whole stems ----

  // A word that no table changes.
  ghost predicate Settled(v: Word) {
    TableStep(Third, v, v) && TableStep(Fourth, v, v) && TableStep(Fifth, v, v)
  }

  lemma Stemmed(w: Word, v: Word, r: Word)
    requires |w| > 2 && Past(Plural(w)) == v && v != [] && v[|v| - 1] != 'y'
    requires Settled(v) && FinalL(FinalE(v)) == r
    ensures Stems(w, r)
  {
    assert v == v[..|v| - 1] + [v[|v| - 1]];
    FinalYMeans(v[..|v| - 1], v[|v| - 1]);
    hide Past, Plural, FinalE, FinalL, FinalY, TableStep;
  }

  lemma NotChanged(x: Word, c: char)
    requires c != 'e' && c != 'l'
    ensures FinalL(FinalE(x + [c])) == x + [c]
  {
    FinalEMeans(x, c);
    FinalLMeans(x, c);
  }

  lemma NoTable(v: Word)
    requires |v| >= 2 && forall s :: Stemmer.Tested(Third, v[|v| - 2], s) ==> !Ends(v, s)
    requires forall s :: Stemmer.Tested(Fourth, v[|v| - 1], s) ==> !Ends(v, s)
    requires forall s :: Stemmer.Tested(Fifth, v[|v| - 2], s) ==> !Ends(v, s)
    ensures Settled(v)
  {
    Stemmer.NothingFound(Third, v);
    Stemmer.NothingFound(Fourth, v);
    Stemmer.NothingFound(Fifth, v);
  }

  lemma SettledPlurals()
    ensures Settled("caress") && Settled("poni") && Settled("ti") && Settled("cat")
  {
    hide Settled;
    NoTable("caress");
    NoTable("poni");
    NoTable("ti");
    NoTable("cat");
  }

  lemma PluralStems()
    ensures Stems("caresses", "caress") && Stems("caress", "caress") && Stems("ponies", "poni")
    ensures Stems("ties", "ti") && Stems("cats", "cat")
  {
    Plurals();
    SettledPlurals();
    hide Past, Plural, Settled, FinalE, FinalL, Stems;
    assert "cares" + ['s'] == "caress" && "pon" + ['i'] == "poni" && "t" + ['i'] == "ti" && "ca" + ['t'] == "cat";
    NotChanged("cares", 's');
    NotChanged("pon", 'i');
    NotChanged("t", 'i');
    NotChanged("ca", 't');
    Stemmed("caresses", "caress", "caress");
    Stemmed("caress", "caress", "caress");
    Stemmed("ponies", "poni", "poni");
    Stemmed("ties", "ti", "ti");
    Stemmed("cats", "cat", "cat");
  }

  lemma FeedStems()
    ensures Stems("feed", "feed") && Stems("agreed", "agre")
  {
    Feed();
    NoTable("feed");
    NoTable("agree");
    Four("agre");
    assert !Cons("agre", 0) && !Cons("agre", 3) && Cons("agre", 1) && Cons("agre", 2);
    assert !ShortEnd("agre");
    hide Past, Plural, Settled, FinalE, FinalL, Stems, Measure, ShortEnd;
    assert "fee" + ['d'] == "feed" && "agre" + "e" == "agree" && "agr" + ['e'] == "agre";
    NotChanged("fee", 'd');
    FinalEMeans("agre", 'x');
    FinalLMeans("agr", 'e');
    Stemmed("feed", "feed", "feed");
    Stemmed("agreed", "agree", "agre");
  }

  lemma SettledMats()
    ensures Settled("mat") && Settled("mate")
  {
    NoTable("mat");
    Stemmer.NothingFound(Third, "mate");
    Stemmer.NothingFound(Fourth, "mate");
    assert "m" + "ate" == "mate" && Measure("m") == 0;
    hide TableStep;
    FifthMeansToo("m");
  }

  lemma Mat()
    ensures HasVowel("mat") && Restores("mat", "mate") && ShortEnd("mat") && Measure("mat") == 1
  {
    Three("mat");
    assert !Cons("mat", 1) && "mat" + "e" == "mate";
  }

  lemma MatStems()
    ensures Stems("matting", "mat") && Stems("mating", "mate")
  {
    Matting();
    SettledMats();
    Mat();
    hide Past, Plural, Settled, FinalE, FinalL, Stems, Measure, ShortEnd, HasVowel, Restores;
    assert "mating" == "mat" + "ing" && "ma" + ['t'] == "mat" && "mat" + "e" == "mate" && "mat" + ['e'] == "mate";
    Ing("mat", "mate");
    NotChanged("ma", 't');
    FinalEMeans("mat", 'x');
    FinalLMeans("mat", 'e');
    Stemmed("matting", "mat", "mat");
    Stemmed("mating", "mate", "mate");
  }

  lemma SettledMeets()
    ensures Settled("meet") && Settled("mess") && Settled("mill")
  {
    hide Settled;
    NoTable("meet");
    NoTable("mess");
    NoTable("mill");
  }

  lemma Meet()
    ensures HasVowel("meet") && Restores("meet", "meet")
  {
    assert !Cons("meet", 1) && !Cons("meet", 2);
  }

  lemma MeetStems()
    ensures Stems("meeting", "meet") && Stems("meetings", "meet") && Stems("messing", "mess")
  {
    Milling();
    SettledMeets();
    Meet();
    Meetings();
    hide Past, Plural, Settled, FinalE, FinalL, Stems, HasVowel, Restores;
    assert "meeting" == "meet" + "ing";
    Ing("meet", "meet");
    assert "mee" + ['t'] == "meet" && "mes" + ['s'] == "mess";
    NotChanged("mee", 't');
    NotChanged("mes", 's');
    Stemmed("meeting", "meet", "meet");
    Stemmed("meetings", "meet", "meet");
    Stemmed("messing", "mess", "mess");
  }

  lemma MillMeasure()
    ensures Measure("mill") == 1
  {
    var w := "mill";
    Four(w);
    assert Cons(w, 0) && !Cons(w, 1) && Cons(w, 2) && Cons(w, 3);
  }

  lemma MillStems()
    ensures Stems("milling", "mill")
  {
    Milling();
    SettledMeets();
    MillMeasure();
    hide Past, Plural, Settled, FinalE, FinalL, Stems, Measure;
    assert "mi" + "ll" == "mill" && "mil" + ['l'] == "mill";
    FinalEMeans("mil", 'l');
    FinalLMeans("mi", 'x');
    Stemmed("milling", "mill", "mill");
  }

  // -able stays behind a measure of one; the final e goes.
  lemma DisabledStem()
    ensures Stems("disabled", "disabl")
  {
    Disabled();
    var v := "disable";
    SettledDisable();
    SixLetters();
    hide Past, Plural, FinalE, FinalL, Stems, Measure;
    assert "disabl" + "e" == v && "disab" + "l" == "disabl";
    FinalEMeans("disabl", 'x');
    FinalLMeans("disab", 'x');
    Stemmed("disabled", v, "disabl");
  }

  lemma SettledDisable()
    ensures Settled("disable")
  {
    Stemmer.NothingFound(Third, "disable");
    Stemmer.NothingFound(Fourth, "disable");
    assert "dis" + "able" == "disable";
    Three("dis");
    assert Measure("dis") == 1;
    hide TableStep, Measure;
    FifthMeans("dis");
  }

  lemma SixLetters()
    ensures Measure("disabl") == 2
  {
    var w := "disabl";
    assert Cons(w, 0) && !Cons(w, 1) && Cons(w, 2) && !Cons(w, 3) && Cons(w, 4) && Cons(w, 5);
    assert Turns(w, 2) == 0 && Turns(w, 3) == 1;
    assert Turns(w, 4) == 1 && Turns(w, 5) == 2;
  }
}
