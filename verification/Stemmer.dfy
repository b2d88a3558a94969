// Stemmer.java: the Porter stemmer on one buffer, with the cursors j (the end of
// the stem before a tested suffix) and k (the end of the word).
module Stemmer {
  import opened StemmerSpec

  // ---- Why the switches of steps 3 to 5 lose no suffix of the tables ----

  // The suffixes tested for a given letter: the last but one, or in step 4 the last.
  predicate Tested(table: Table, c: char, s: Word) {
    match table
    case Third =>
      (c == 'a' && (s == "ational" || s == "tional")) || (c == 'c' && (s == "enci" || s == "anci"))
      || (c == 'e' && s == "izer")
      || (c == 'l' && (s == "bli" || s == "alli" || s == "entli" || s == "eli" || s == "ousli"))
      || (c == 'o' && (s == "ization" || s == "ation" || s == "ator"))
      || (c == 's' && (s == "alism" || s == "iveness" || s == "fulness" || s == "ousness"))
      || (c == 't' && (s == "aliti" || s == "iviti" || s == "biliti")) || (c == 'g' && s == "logi")
    case Fourth =>
      (c == 'e' && (s == "icate" || s == "ative" || s == "alize")) || (c == 'i' && s == "iciti")
      || (c == 'l' && (s == "ical" || s == "ful")) || (c == 's' && s == "ness")
    case Fifth =>
      (c == 'a' && s == "al") || (c == 'c' && (s == "ance" || s == "ence")) || (c == 'e' && s == "er")
      || (c == 'i' && s == "ic") || (c == 'l' && (s == "able" || s == "ible"))
      || (c == 'n' && (s == "ant" || s == "ement" || s == "ment" || s == "ent"))
      || (c == 'o' && (s == "ion" || s == "ou")) || (c == 's' && s == "ism")
      || (c == 't' && (s == "ate" || s == "iti")) || (c == 'u' && s == "ous") || (c == 'v' && s == "ive")
      || (c == 'z' && s == "ize")
  }

  function SwitchLetter(table: Table, w: Word): char
    requires |w| >= 2
  {
    if table.Fourth? then w[|w| - 1] else w[|w| - 2]
  }

  lemma EndsAt(w: Word, s: Word, i: nat)
    requires Ends(w, s) && 1 <= i <= |s|
    ensures w[|w| - i] == s[|s| - i]
  {
    assert w[|w| - |s|..][|s| - i] == s[|s| - i];
  }

  lemma EndsLetters(w: Word, s: Word)
    ensures Ends(w, s) <==> |s| <= |w| && forall p :: 0 <= p < |s| ==> w[|w| - |s| + p] == s[p]
  {
    if Ends(w, s) {
      forall p | 0 <= p < |s| ensures w[|w| - |s| + p] == s[p] {
        assert w[|w| - |s|..][p] == w[|w| - |s| + p];
      }
    }
  }

  lemma RuleLetter(table: Table, s: Word, t: Word)
    requires Rule(table, s, t)
    ensures |s| >= 2 && Tested(table, if table.Fourth? then s[|s| - 1] else s[|s| - 2], s)
  {
  }

  lemma SwitchComplete(table: Table, w: Word)
    requires |w| >= 2
    ensures forall s, t :: Rule(table, s, t) && Ends(w, s) ==> Tested(table, SwitchLetter(table, w), s)
  {
    forall s, t | Rule(table, s, t) && Ends(w, s) ensures Tested(table, SwitchLetter(table, w), s) {
      RuleLetter(table, s, t);
      EndsAt(w, s, 1);
      EndsAt(w, s, 2);
    }
  }

  // The only pairs of suffixes in one table where one ends with the other.
  predicate Shadows(s': Word, s: Word) {
    (s' == "ational" && s == "tional") || (s' == "ization" && s == "ation")
    || (s' == "ement" && s == "ment") || (s' == "ement" && s == "ent") || (s' == "ment" && s == "ent")
  }

  // Two matching suffixes are suffixes of each other.
  lemma BothEnd(w: Word, s: Word, s': Word)
    requires Ends(w, s) && Ends(w, s') && |s| <= |s'|
    ensures Ends(s', s)
  {
    assert w[|w| - |s'|..][|s'| - |s|..] == w[|w| - |s|..];
  }

  lemma GroupSuffixes(table: Table, c: char, s: Word, s': Word)
    requires Tested(table, c, s) && Tested(table, c, s') && |s| < |s'| && Ends(s', s)
    ensures Shadows(s', s)
  {
    if table.Third? {
      GroupThird(c, s, s');
    } else {
      if |s| >= 3 { EndsAt(s', s, 3); }
      if |s| >= 4 { EndsAt(s', s, 4); }
      EndsAt(s', s, 1);
      hide Ends;
    }
  }

  lemma GroupThird(c: char, s: Word, s': Word)
    requires Tested(Third, c, s) && Tested(Third, c, s') && |s| < |s'| && Ends(s', s)
    ensures Shadows(s', s)
  {
    if |s| >= 4 { EndsAt(s', s, 4); }
    if |s| >= 5 { EndsAt(s', s, 5); }
    EndsAt(s', s, 3);
    EndsAt(s', s, 1);
    hide Ends;
  }

  lemma TableSuffixes(table: Table, s: Word, t: Word, s': Word, t': Word)
    requires Rule(table, s, t) && Rule(table, s', t') && |s| < |s'| && Ends(s', s)
    ensures Shadows(s', s)
  {
    RuleLetter(table, s, t);
    RuleLetter(table, s', t');
    hide Rule, Tested;
    EndsAt(s', s, 1);
    EndsAt(s', s, 2);
    GroupSuffixes(table, if table.Fourth? then s[|s| - 1] else s[|s| - 2], s, s');
  }

  // A suffix found in the order of the code is the longest one in the table.
  lemma FoundLongest(table: Table, w: Word, s: Word, t: Word)
    requires Rule(table, s, t) && Ends(w, s)
    requires forall s' :: Shadows(s', s) ==> !Ends(w, s')
    ensures Longest(table, w, s, t)
  {
    forall s', t' | Rule(table, s', t') && Ends(w, s') ensures |s'| <= |s| {
      if |s| < |s'| {
        BothEnd(w, s, s');
        TableSuffixes(table, s, t, s', t');
      }
    }
  }

  class Stemmer {
    var b: array<char>
    var i: int
    var iEnd: int
    var j: int
    var k: int

    const INC := 50

    constructor ()
      ensures i == 0 && iEnd == 0 && fresh(b) && b.Length == 50
    {
      b := new char[50];
      i, iEnd, j, k := 0, 0, 0, 0;
    }

    // The letters added so far, while a word is being put together.
    ghost function Pending(): Word
      reads this, b
      requires 0 <= i <= b.Length
    {
      b[..i]
    }

    method Grow(size: int)
      requires 0 <= i <= b.Length && i <= size
      modifies this`b
      ensures fresh(b) && b.Length == size && b[..i] == old(b[..i])
    {
      var newB := new char[size];
      for c := 0 to i
        invariant b == old(b) && newB[..c] == b[..c]
      {
        newB[c] := b[c];
      }
      b := newB;
    }

    method Add(ch: char)
      requires 0 <= i <= b.Length
      modifies this`b, this`i, b
      ensures 0 <= i <= b.Length && (b == old(b) || fresh(b))
      ensures Pending() == old(Pending()) + [ch]
    {
      if i == b.Length {
        Grow(i + INC);
      }
      b[i] := ch;
      i := i + 1;
    }

    method AddAll(w: Word)
      requires 0 <= i <= b.Length
      modifies this`b, this`i, b
      ensures 0 <= i <= b.Length && (b == old(b) || fresh(b))
      ensures Pending() == old(Pending()) + w
    {
      if i + |w| >= b.Length {
        Grow(i + |w| + INC);
      }
      ghost var before := b[..i];
      for c := 0 to |w|
        invariant i == old(i) + c && i + |w| - c <= b.Length
        invariant b[..i] == before + w[..c]
        invariant b == old(b) || fresh(b)
      {
        b[i] := w[c];
        i := i + 1;
      }
    }

    // The word being stemmed.
    ghost function Current(): Word
      reads this, b
      requires -1 <= k < b.Length
    {
      b[..k + 1]
    }

    predicate ConsAt(p: nat)
      reads this, b
      requires p < b.Length
      ensures ConsAt(p) == Cons(b[..], p)
      decreases p
    {
      match b[p]
      case 'a' => false
      case 'e' => false
      case 'i' => false
      case 'o' => false
      case 'u' => false
      case 'y' => if p == 0 then true else !ConsAt(p - 1)
      case _ => true
    }

    method M() returns (n: nat)
      requires -1 <= j < b.Length
      ensures n == Measure(b[..j + 1])
    {
      TurnsPrefix(b[..], b[..j + 1], j + 1);
      n := 0;
      var p := 0;
      while true
        invariant 0 <= p <= j + 1 && (p > 0 ==> Cons(b[..], p - 1)) && Turns(b[..], p) == 0
        decreases j + 1 - p
      {
        if p > j { return; }
        if !ConsAt(p) { break; }
        p := p + 1;
      }
      p := p + 1;
      while true
        invariant 1 <= p <= j + 1 && !Cons(b[..], p - 1) && n == Turns(b[..], p)
        decreases j + 1 - p
      {
        while true
          invariant 1 <= p <= j + 1 && !Cons(b[..], p - 1) && n == Turns(b[..], p)
          decreases j + 1 - p
        {
          if p > j { return; }
          if ConsAt(p) { break; }
          p := p + 1;
        }
        p := p + 1;
        n := n + 1;
        while true
          invariant 1 <= p <= j + 1 && Cons(b[..], p - 1) && n == Turns(b[..], p)
          decreases j + 1 - p
        {
          if p > j { return; }
          if !ConsAt(p) { break; }
          p := p + 1;
        }
        p := p + 1;
      }
    }

    method VowelInStem() returns (r: bool)
      requires -1 <= j < b.Length
      ensures r == HasVowel(b[..j + 1])
    {
      for p := 0 to j + 1
        invariant forall q :: 0 <= q < p ==> Cons(b[..], q)
      {
        if !ConsAt(p) {
          ConsPrefix(b[..], b[..j + 1], p);
          return true;
        }
      }
      ghost var stem := b[..j + 1];
      forall q | 0 <= q < |stem| ensures Cons(stem, q) {
        ConsPrefix(b[..], stem, q);
      }
      return false;
    }

    // doublec(j)
    method DoubleC(p: int) returns (r: bool)
      requires -1 <= p < b.Length
      ensures r == DoubleConsonant(b[..p + 1])
    {
      if p < 1 { return false; }
      if b[p] != b[p - 1] { return false; }
      ConsPrefix(b[..], b[..p + 1], p);
      return ConsAt(p);
    }

    method Cvc(p: int) returns (r: bool)
      requires -1 <= p < b.Length
      ensures r == ShortEnd(b[..p + 1])
    {
      if p < 2 { return false; }
      ConsPrefix(b[..], b[..p + 1], p);
      ConsPrefix(b[..], b[..p + 1], p - 1);
      ConsPrefix(b[..], b[..p + 1], p - 2);
      if !ConsAt(p) || ConsAt(p - 1) || !ConsAt(p - 2) { return false; }
      var ch := b[p];
      if ch == 'w' || ch == 'x' || ch == 'y' { return false; }
      return true;
    }

    // ends(s): when the word ends with s, j is set to the end of what stands before.
    method EndsWith(s: Word) returns (r: bool)
      requires -1 <= k < b.Length
      modifies this`j
      ensures r == Ends(Current(), s)
      ensures j == if r then k - |s| else old(j)
      ensures r ==> j >= -1
      ensures Current() == old(Current())
    {
      EndsLetters(Current(), s);
      hide Ends;
      var l := |s|;
      var o := k - l + 1;
      if o < 0 { return false; }
      for p := 0 to l
        invariant forall q :: 0 <= q < p ==> Current()[o + q] == s[q]
      {
        if b[o + p] != s[p] {
          return false;
        }
      }
      j := k - l;
      return true;
    }

    method SetTo(s: Word)
      requires -1 <= j && j + |s| < b.Length
      modifies this`k, b
      ensures k == j + |s| && Current() == old(b[..j + 1]) + s
    {
      var l := |s|;
      var o := j + 1;
      for p := 0 to l
        invariant b[..o] == old(b[..o]) && b[o..o + p] == s[..p]
      {
        b[o + p] := s[p];
      }
      k := j + l;
      assert b[o..o + l] == s;
      assert b[..o + l] == b[..o] + b[o..o + l];
    }

    method R(s: Word)
      requires -1 <= j <= k < b.Length && j + |s| <= k
      modifies this`k, b
      ensures k == if Measure(old(b[..j + 1])) > 0 then j + |s| else old(k)
      ensures Current() == if Measure(old(b[..j + 1])) > 0 then old(b[..j + 1]) + s else old(Current())
    {
      var m := M();
      if m > 0 {
        SetTo(s);
      }
    }

    // The first half of step1: plurals.
    method Step1Plurals()
      requires 1 <= k < b.Length
      modifies this`j, this`k, b
      ensures 0 <= k <= old(k)
      ensures Current() == Plural(old(Current()))
    {
      hide Plural, Ends;
      ghost var w := Current();
      PluralCases(w);
      PluralLengths(w);
      if b[k] == 's' {
        var r := EndsWith("sses");
        if r {
          k := k - 2;
          assert Current() == w[..|w| - 2];
        } else {
          r := EndsWith("ies");
          if r {
            SetTo("i");
          } else if b[k - 1] != 's' {
            k := k - 1;
            assert Current() == w[..|w| - 1];
          }
        }
      }
    }

    // What follows the removal of -ed or -ing: k has just been set to j, and there
    // is room for at least one more letter.
    method Tidy()
      requires -1 <= j == k && k + 1 < b.Length
      modifies this`j, this`k, b
      ensures -1 <= k <= old(k) + 1
      ensures Current() == Tidied(old(Current()))
    {
      hide Ends, Tidied;
      ghost var w := Current();
      TidiedE(w);
      var r := EndsWith("at");
      if r {
        Restored(w, "at", "ate");
        SetTo("ate");
        return;
      }
      r := EndsWith("bl");
      if r {
        Restored(w, "bl", "ble");
        SetTo("ble");
        return;
      }
      r := EndsWith("iz");
      if r {
        Restored(w, "iz", "ize");
        SetTo("ize");
        return;
      }
      TidyRest();
    }

    method TidyRest()
      requires -1 <= j == k && k + 1 < b.Length
      requires !Ends(Current(), "at") && !Ends(Current(), "bl") && !Ends(Current(), "iz")
      modifies this`j, this`k, b
      ensures -1 <= k <= old(k) + 1
      ensures Current() == Tidied(old(Current()))
    {
      ghost var w := Current();
      hide Ends, Measure, ShortEnd;
      var r := DoubleC(k);
      if r {
        k := k - 1;
        assert Current() == w[..|w| - 1];
        var ch := b[k];
        if ch == 'l' || ch == 's' || ch == 'z' {
          k := k + 1;
        }
        return;
      }
      var m := M();
      if m == 1 {
        r := Cvc(k);
        if r {
          SetTo("e");
        }
      }
    }

    // (m > 0) eed -> ee, once the word is known to end with it.
    method ShortenEed()
      requires 0 <= k < b.Length && Ends(Current(), "eed") && j == k - 3
      modifies this`k
      ensures 0 <= k <= old(k)
      ensures Current() == Past(old(Current()))
    {
      ghost var w := Current();
      assert b[..j + 1] == Before(w, "eed");
      var m := M();
      if m > 0 {
        Shortened(w, "eed", "ee");
        k := k - 1;
        assert Current() == w[..|w| - 1];
      }
    }

    // (*v*) ed -> nothing, ing -> nothing, once the word is known to end with s.
    method RemovePast(ghost s: Word)
      requires 0 <= k < b.Length && Ends(Current(), s) && j == k - |s| && |s| >= 2
      modifies this`j, this`k, b
      ensures 0 <= k <= old(k)
      ensures Current() == if HasVowel(Before(old(Current()), s)) then Tidied(Before(old(Current()), s)) else old(Current())
    {
      ghost var w := Current();
      hide Ends, Tidied;
      assert b[..j + 1] == Before(w, s);
      var r := VowelInStem();
      if r {
        TidiedLength(b[..j + 1]);
        k := j;
        Tidy();
      }
    }

    // The second half of step1: -eed, -ed and -ing.
    method Step1Past()
      requires 0 <= k < b.Length
      modifies this`j, this`k, b
      ensures 0 <= k <= old(k)
      ensures Current() == Past(old(Current()))
    {
      hide Ends, Tidied, HasVowel, Measure;
      var r := EndsWith("eed");
      if r {
        ShortenEed();
        return;
      }
      r := EndsWith("ed");
      if r {
        RemovePast("ed");
        return;
      }
      r := EndsWith("ing");
      if r {
        RemovePast("ing");
      }
    }

    method Step1()
      requires 1 <= k < b.Length
      modifies this`j, this`k, b
      ensures 0 <= k <= old(k)
      ensures Current() == Past(Plural(old(Current())))
    {
      Step1Plurals();
      Step1Past();
    }

    method Step2()
      requires 0 <= k < b.Length
      modifies this`j, b
      ensures Current() == FinalY(old(Current()))
    {
      ghost var w := Current();
      var r := EndsWith("y");
      if r {
        assert b[..j + 1] == Before(w, "y");
        r := VowelInStem();
        if r {
          b[k] := 'i';
          assert Current() == w[..|w| - 1] + ['i'];
          assert "i" == ['i'];
        }
      }
    }

    // ends(s), and then r(t).
    method Try(table: Table, s: Word, t: Word) returns (r: bool)
      requires 0 <= k < b.Length && |t| <= |s|
      requires !table.Fifth? && Rule(table, s, t) && forall s' :: Shadows(s', s) ==> !Ends(Current(), s')
      modifies this`j, this`k, b
      ensures r == Ends(old(Current()), s) && 0 <= k <= old(k)
      ensures r ==> TableStep(table, old(Current()), Current())
      ensures !r ==> k == old(k) && Current() == old(Current())
    {
      hide Ends, TableStep, Rule, Shadows;
      r := EndsWith(s);
      if r {
        Replace(table, s, t);
      }
    }

    // A suffix was found: replace it by t when the stem allows.
    method Replace(table: Table, ghost s: Word, t: Word)
      requires 0 <= k < b.Length && Ends(Current(), s) && -1 <= j == k - |s| && |t| <= |s|
      requires !table.Fifth? && Rule(table, s, t) && forall s' :: Shadows(s', s) ==> !Ends(Current(), s')
      modifies this`k, b
      ensures 0 <= k <= old(k)
      ensures TableStep(table, old(Current()), Current())
    {
      hide Longest, Measure, Rule, TableStep, Ends, Shadows, Condition;
      ghost var w := Current();
      FoundLongest(table, w, s, t);
      assert b[..j + 1] == Before(w, s);
      StepTaken(table, w, s, t);
      R(t);
    }

    // Double suffixes become single ones. The switch, in parts.
    method Step3()
      requires 0 <= k < b.Length
      modifies this`j, this`k, b
      ensures 0 <= k <= old(k)
      ensures TableStep(Third, old(Current()), Current())
    {
      hide Ends, Longest, Condition, TableStep, Measure, NoSuffix;
      ghost var w := Current();
      if k == 0 {
        TooShort(Third, w);
        return;
      }
      var r;
      match b[k - 1] {
        case 'a' =>
          r := Try(Third, "ational", "ate"); if r { return; }
          r := Try(Third, "tional", "tion"); if r { return; }
          NothingFound(Third, w);
        case 'c' =>
          r := Try(Third, "enci", "ence"); if r { return; }
          r := Try(Third, "anci", "ance"); if r { return; }
          NothingFound(Third, w);
        case 'e' =>
          r := Try(Third, "izer", "ize"); if r { return; }
          NothingFound(Third, w);
        case 'l' =>
          r := Try(Third, "bli", "ble"); if r { return; }
          r := Try(Third, "alli", "al"); if r { return; }
          r := Try(Third, "entli", "ent"); if r { return; }
          r := Try(Third, "eli", "e"); if r { return; }
          r := Try(Third, "ousli", "ous"); if r { return; }
          NothingFound(Third, w);
        case _ =>
          Step3Later();
      }
    }

    method Step3Later()
      requires 1 <= k < b.Length && b[k - 1] !in "acel"
      modifies this`j, this`k, b
      ensures 0 <= k <= old(k)
      ensures TableStep(Third, old(Current()), Current())
    {
      hide Ends, Longest, Condition, TableStep, Measure, NoSuffix;
      ghost var w := Current();
      var r;
      match b[k - 1] {
        case 'o' =>
          r := Try(Third, "ization", "ize"); if r { return; }
          r := Try(Third, "ation", "ate"); if r { return; }
          r := Try(Third, "ator", "ate"); if r { return; }
          NothingFound(Third, w);
        case 's' =>
          r := Try(Third, "alism", "al"); if r { return; }
          r := Try(Third, "iveness", "ive"); if r { return; }
          r := Try(Third, "fulness", "ful"); if r { return; }
          r := Try(Third, "ousness", "ous"); if r { return; }
          NothingFound(Third, w);
        case _ =>
          Step3Last();
      }
    }

    method Step3Last()
      requires 1 <= k < b.Length && b[k - 1] !in "acelos"
      modifies this`j, this`k, b
      ensures 0 <= k <= old(k)
      ensures TableStep(Third, old(Current()), Current())
    {
      hide Ends, Longest, Condition, TableStep, Measure, NoSuffix;
      ghost var w := Current();
      var r;
      match b[k - 1] {
        case 't' =>
          r := Try(Third, "aliti", "al"); if r { return; }
          r := Try(Third, "iviti", "ive"); if r { return; }
          r := Try(Third, "biliti", "ble"); if r { return; }
          NothingFound(Third, w);
        case 'g' =>
          r := Try(Third, "logi", "log"); if r { return; }
          NothingFound(Third, w);
        case _ =>
          NothingFound(Third, w);
      }
    }

    // -ic-, -full, -ness and the like.
    method Step4()
      requires 0 <= k < b.Length
      modifies this`j, this`k, b
      ensures 0 <= k <= old(k)
      ensures TableStep(Fourth, old(Current()), Current())
    {
      hide Ends, Longest, Condition, TableStep, Measure, NoSuffix;
      ghost var w := Current();
      if k == 0 {
        TooShort(Fourth, w);
        return;
      }
      var r;
      match b[k] {
        case 'e' =>
          r := Try(Fourth, "icate", "ic"); if r { return; }
          r := Try(Fourth, "ative", ""); if r { return; }
          r := Try(Fourth, "alize", "al"); if r { return; }
          NothingFound(Fourth, w);
        case 'i' =>
          r := Try(Fourth, "iciti", "ic"); if r { return; }
          NothingFound(Fourth, w);
        case 'l' =>
          r := Try(Fourth, "ical", "ic"); if r { return; }
          r := Try(Fourth, "ful", ""); if r { return; }
          NothingFound(Fourth, w);
        case 's' =>
          r := Try(Fourth, "ness", ""); if r { return; }
          NothingFound(Fourth, w);
        case _ =>
          NothingFound(Fourth, w);
      }
    }

    method TryDrop(s: Word) returns (r: bool)
      requires 0 <= k < b.Length && s != "ion"
      requires Rule(Fifth, s, "") && forall s' :: Shadows(s', s) ==> !Ends(Current(), s')
      modifies this`j, this`k
      ensures r == Ends(old(Current()), s) && 0 <= k <= old(k)
      ensures r ==> TableStep(Fifth, old(Current()), Current())
      ensures !r ==> k == old(k) && Current() == old(Current())
    {
      hide Ends, TableStep, Rule, Shadows;
      r := EndsWith(s);
      if r {
        Drop(s);
      }
    }

    // A suffix of the fifth table was found: it goes when the measure allows.
    method Drop(ghost s: Word)
      requires 0 <= k < b.Length && Ends(Current(), s) && -1 <= j == k - |s|
      requires Rule(Fifth, s, "") && forall s' :: Shadows(s', s) ==> !Ends(Current(), s')
      requires s == "ion" ==> j >= 0 && (b[j] == 's' || b[j] == 't')
      modifies this`k
      ensures 0 <= k <= old(k)
      ensures TableStep(Fifth, old(Current()), Current())
    {
      hide Longest, Measure, Rule, TableStep, Ends, Shadows, Condition;
      ghost var w := Current();
      FoundLongest(Fifth, w, s, "");
      assert b[..j + 1] == Before(w, s);
      StepDropped(w, s);
      var m := M();
      if m > 1 {
        k := j;
      }
    }

    // -ion goes only after s or t; otherwise -ou is still tried, and cannot match.
    method DropIon()
      requires 0 <= k < b.Length && Ends(Current(), "ion") && -1 <= j == k - 3
      modifies this`j, this`k
      ensures 0 <= k <= old(k)
      ensures TableStep(Fifth, old(Current()), Current())
    {
      hide Ends, Longest, Measure, Condition, NoSuffix, TableStep;
      ghost var w := Current();
      if j >= 0 && (b[j] == 's' || b[j] == 't') {
        Drop("ion");
        return;
      }
      assert b[..j + 1] == Before(w, "ion");
      IonStays(w);
      NotBoth(w);
      var r := EndsWith("ou");
      assert !r;
    }

    // -ant, -ence and the like go when the measure is greater than one. The switch,
    // in two halves.
    method Step5()
      requires 0 <= k < b.Length
      modifies this`j, this`k
      ensures 0 <= k <= old(k)
      ensures TableStep(Fifth, old(Current()), Current())
    {
      hide Ends, Longest, Condition, TableStep, Measure, NoSuffix;
      ghost var w := Current();
      if k == 0 {
        TooShort(Fifth, w);
        return;
      }
      var r;
      match b[k - 1] {
        case 'a' =>
          r := TryDrop("al"); if r { return; }
          NothingFound(Fifth, w);
        case 'c' =>
          r := TryDrop("ance"); if r { return; }
          r := TryDrop("ence"); if r { return; }
          NothingFound(Fifth, w);
        case 'e' =>
          r := TryDrop("er"); if r { return; }
          NothingFound(Fifth, w);
        case 'i' =>
          r := TryDrop("ic"); if r { return; }
          NothingFound(Fifth, w);
        case 'l' =>
          r := TryDrop("able"); if r { return; }
          r := TryDrop("ible"); if r { return; }
          NothingFound(Fifth, w);
        case _ =>
          Step5Later();
      }
    }

    method Step5Later()
      requires 1 <= k < b.Length && b[k - 1] !in "aceil"
      modifies this`j, this`k
      ensures 0 <= k <= old(k)
      ensures TableStep(Fifth, old(Current()), Current())
    {
      hide Ends, Longest, Condition, TableStep, Measure, NoSuffix;
      ghost var w := Current();
      var r;
      match b[k - 1] {
        case 'n' =>
          r := TryDrop("ant"); if r { return; }
          r := TryDrop("ement"); if r { return; }
          r := TryDrop("ment"); if r { return; }
          r := TryDrop("ent"); if r { return; }
          NothingFound(Fifth, w);
        case 'o' =>
          r := EndsWith("ion"); if r { DropIon(); return; }
          r := TryDrop("ou"); if r { return; }
          NothingFound(Fifth, w);
        case 's' =>
          r := TryDrop("ism"); if r { return; }
          NothingFound(Fifth, w);
        case 't' =>
          r := TryDrop("ate"); if r { return; }
          r := TryDrop("iti"); if r { return; }
          NothingFound(Fifth, w);
        case 'u' =>
          r := TryDrop("ous"); if r { return; }
          NothingFound(Fifth, w);
        case 'v' =>
          r := TryDrop("ive"); if r { return; }
          NothingFound(Fifth, w);
        case 'z' =>
          r := TryDrop("ize"); if r { return; }
          NothingFound(Fifth, w);
        case _ =>
          NothingFound(Fifth, w);
      }
    }

    // A final e goes, and a final double l becomes single.
    method Step6()
      requires 0 <= k < b.Length
      modifies this`j, this`k
      ensures 0 <= k <= old(k)
      ensures Current() == FinalL(FinalE(old(Current())))
    {
      hide Measure, FinalE, FinalL;
      DropE();
      DropL();
    }

    // The measure of the word before the e was dropped serves for the l as well: a
    // final vowel does not count.
    method DropE()
      requires 0 <= k < b.Length
      modifies this`j, this`k
      ensures 0 <= k <= old(k) && -1 <= j < b.Length
      ensures Current() == FinalE(old(Current()))
      ensures Measure(b[..j + 1]) == Measure(Current())
    {
      hide Measure, ShortEnd, DoubleConsonant;
      ghost var w := Current();
      j := k;
      FinalLetter(w, 'e');
      if b[k] == 'e' {
        FinalVowel(w);
        var a := M();
        StemOfE(w);
        var short := Cvc(k - 1);
        assert b[..k] == w[..|w| - 1];
        if a > 1 || (a == 1 && !short) {
          k := k - 1;
          assert Current() == w[..|w| - 1];
        }
      }
    }

    method DropL()
      requires 0 <= k < b.Length && -1 <= j < b.Length && Measure(b[..j + 1]) == Measure(Current())
      modifies this`k
      ensures 0 <= k <= old(k)
      ensures Current() == FinalL(old(Current()))
    {
      hide Measure, DoubleConsonant;
      ghost var v := Current();
      FinalLetter(v, 'l');
      if b[k] == 'l' {
        var double := DoubleC(k);
        if double {
          DoubleLength(v);
          var m := M();
          if m > 1 {
            k := k - 1;
            assert Current() == v[..|v| - 1];
          }
        }
      }
    }

    // stem(): the pending word is stemmed in place and the next word may begin.
    method Stem()
      requires 0 <= i <= b.Length
      modifies this, b
      ensures b == old(b) && i == 0
      ensures 0 <= iEnd <= old(i) && (old(i) > 0 ==> iEnd > 0)
      ensures Stems(old(Pending()), b[..iEnd])
    {
      hide Plural, Past, FinalY, TableStep, FinalE, FinalL;
      k := i - 1;
      ghost var w := Current();
      if k > 1 {
        Step1();
        Step2();
        Step3();
        ghost var x := Current();
        Step4();
        ghost var y := Current();
        Step5();
        ghost var z := Current();
        Step6();
        assert TableStep(Third, FinalY(Past(Plural(w))), x) && TableStep(Fourth, x, y) && TableStep(Fifth, y, z);
      }
      iEnd := k + 1;
      i := 0;
    }
  }

  lemma StepDropped(w: Word, s: Word)
    requires Longest(Fifth, w, s, "")
    requires s == "ion" ==> Before(w, s) != [] && (Before(w, s)[|Before(w, s)| - 1] == 's' || Before(w, s)[|Before(w, s)| - 1] == 't')
    ensures TableStep(Fifth, w, if Measure(Before(w, s)) > 1 then Before(w, s) else w)
    ensures Measure(Before(w, s)) > 1 ==> |Before(w, s)| >= 4
  {
    var stem := Before(w, s);
    MeasureBound(stem, |stem|);
    if s == "ion" {
      FinalLetter(stem, 's');
      FinalLetter(stem, 't');
    }
    assert stem + "" == stem;
  }

  lemma FinalLetter(w: Word, c: char)
    ensures Ends(w, [c]) <==> w != [] && w[|w| - 1] == c
    ensures Ends(w, [c]) ==> Before(w, [c]) == w[..|w| - 1]
  {
    if w != [] { assert w[|w| - 1..] == [w[|w| - 1]]; }
  }

  // -ion after another letter than s or t stays.
  lemma IonStays(w: Word)
    requires Ends(w, "ion")
    requires Before(w, "ion") == [] || (Before(w, "ion")[|Before(w, "ion")| - 1] != 's' && Before(w, "ion")[|Before(w, "ion")| - 1] != 't')
    ensures TableStep(Fifth, w, w)
  {
    FinalLetter(Before(w, "ion"), 's');
    FinalLetter(Before(w, "ion"), 't');
    FoundLongest(Fifth, w, "ion", "");
    assert "s" == ['s'] && "t" == ['t'];
  }

  lemma NotBoth(w: Word)
    requires Ends(w, "ion")
    ensures !Ends(w, "ou")
  {
    EndsAt(w, "ion", 1);
    if Ends(w, "ou") { EndsAt(w, "ou", 1); }
  }

  lemma StemOfE(w: Word)
    requires w != []
    ensures Measure(w) == Measure(w[..|w| - 1]) && Measure(w) >= 1 ==> |w| >= 2
  {
    MeasureBound(w, |w|);
  }

  lemma DoubleLength(w: Word)
    requires DoubleConsonant(w)
    ensures |w| >= 2
  {
  }

  lemma TooShort(table: Table, w: Word)
    requires |w| <= 1
    ensures TableStep(table, w, w)
  {
    forall s, t | Rule(table, s, t) ensures !Ends(w, s) {
      RuleLetter(table, s, t);
    }
  }

  // Steps 3 and 4 share their condition.
  lemma StepTaken(table: Table, w: Word, s: Word, t: Word)
    requires Longest(table, w, s, t) && !table.Fifth?
    ensures TableStep(table, w, if Measure(Before(w, s)) > 0 then Before(w, s) + t else w)
    ensures Measure(Before(w, s)) > 0 ==> |Before(w, s)| >= 2
  {
    MeasureBound(Before(w, s), |Before(w, s)|);
  }

  lemma NothingFound(table: Table, w: Word)
    requires |w| >= 2 && forall s :: Tested(table, SwitchLetter(table, w), s) ==> !Ends(w, s)
    ensures TableStep(table, w, w)
  {
    SwitchComplete(table, w);
  }

  lemma PluralCases(w: Word)
    requires |w| >= 2
    ensures w[|w| - 1] != 's' ==> Plural(w) == w
    ensures Ends(w, "sses") ==> Plural(w) == w[..|w| - 2]
    ensures !Ends(w, "sses") && Ends(w, "ies") ==> Plural(w) == w[..|w| - 3] + "i"
    ensures !Ends(w, "sses") && !Ends(w, "ies") && w[|w| - 1] == 's' ==>
              Plural(w) == if w[|w| - 2] == 's' then w else w[..|w| - 1]
  {
    if Ends(w, "sses") { EndsAt(w, "sses", 1); Shortened2(w, "sses", "ss"); }
    if Ends(w, "ies") { EndsAt(w, "ies", 1); }
    if Ends(w, "ss") { EndsAt(w, "ss", 1); EndsAt(w, "ss", 2); }
    if Ends(w, "s") { EndsAt(w, "s", 1); }
    if w[|w| - 1] == 's' { assert w[|w| - 1..] == "s"; }
    if w[|w| - 1] == 's' && w[|w| - 2] == 's' { assert w[|w| - 2..] == "ss"; }
  }

  lemma PluralLengths(w: Word)
    ensures Ends(w, "sses") ==> |w| >= 4
    ensures Ends(w, "ies") ==> |w| >= 3
  {
  }

  lemma Shortened(w: Word, s: Word, t: Word)
    requires Ends(w, s) && s != [] && s[..|s| - 1] == t
    ensures w[..|w| - 1] == Before(w, s) + t
  {
    assert w == Before(w, s) + s;
  }

  lemma Shortened2(w: Word, s: Word, t: Word)
    requires Ends(w, s) && |s| >= 2 && s[..|s| - 2] == t
    ensures w[..|w| - 2] == Before(w, s) + t
  {
    assert w == Before(w, s) + s;
  }

  lemma Restored(w: Word, s: Word, t: Word)
    requires Ends(w, s) && t == s + "e"
    ensures Before(w, s) + t == w + "e"
  {
    assert w == Before(w, s) + s;
  }

  lemma TidiedE(w: Word)
    ensures Ends(w, "at") || Ends(w, "bl") || Ends(w, "iz") ==> Tidied(w) == w + "e"
  {
  }

  lemma TidiedLength(w: Word)
    requires HasVowel(w)
    ensures 1 <= |Tidied(w)| <= |w| + 1
  {
  }
}
