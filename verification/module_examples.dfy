/** The examples and unit tests of src/module.rs, worked out step by step.
    Each text is kept as a list of words and single characters, so that every
    replacement is seen to act on the characters it meets one piece at a time. */
module ModuleExamples {
  import opened Common
  import opened Text
  import opened Config
  import opened Modules
  import opened Templating

  /** Lower-casing works piece by piece. */
  lemma LowerConcat(a: string, b: string)
    ensures LowerAscii(a + b) == LowerAscii(a) + LowerAscii(b)
  {
    var l, r := LowerAscii(a + b), LowerAscii(a) + LowerAscii(b);
    forall k | 0 <= k < |l|
      ensures l[k] == r[k]
    {
      if k < |a| {
        assert (a + b)[k] == a[k];
      } else {
        assert (a + b)[k] == b[k - |a|];
      }
    }
  }

  /** A text without capitals is its own lower case. */
  lemma LowerKeep(s: string)
    requires forall c | c in s :: !IsUpper(c)
    ensures LowerAscii(s) == s
  {
    forall k | 0 <= k < |s|
      ensures !IsUpper(s[k])
    {
      assert s[k] in s;
    }
  }

  /** A substitution is skipped when its word starts with a character the
      text does not hold: the text has only ID characters and `others`. */
  lemma SubstitutionSkipped(s: string, subs: seq<(string, string)>, k: nat, others: string)
    requires WellFormedSubstitutions(subs) && k < |subs|
    requires forall c | c in s :: IsIdChar(c) || c in others
    requires subs[k].0[0] !in others
    ensures ApplySubstitutions(s, subs, k) == ApplySubstitutions(s, subs, k + 1)
  {
    ReplaceMissingFirst(s, subs[k].0, subs[k].1);
  }

  /** None of the substitutions `subs[k..m]` starts with a character of `others`. */
  predicate SkipsAll(subs: seq<(string, string)>, k: nat, m: nat, others: string)
    requires WellFormedSubstitutions(subs) && m <= |subs|
    decreases m - k
  {
    k >= m || (subs[k].0[0] !in others && SkipsAll(subs, k + 1, m, others))
  }

  /** A run of substitutions that all start with characters the text lacks
      leaves the text alone. */
  lemma {:induction false} SubstitutionsSkipped(s: string, subs: seq<(string, string)>, k: nat, m: nat, others: string)
    requires WellFormedSubstitutions(subs) && k <= m <= |subs|
    requires forall c | c in s :: IsIdChar(c) || c in others
    requires SkipsAll(subs, k, m, others)
    ensures ApplySubstitutions(s, subs, k) == ApplySubstitutions(s, subs, m)
    decreases m - k
  {
    if k < m {
      SubstitutionSkipped(s, subs, k, others);
      SubstitutionsSkipped(s, subs, k + 1, m, others);
    }
  }

  /** A substitution that turns `s` into `t`. */
  lemma SubstitutionHit(s: string, subs: seq<(string, string)>, k: nat, t: string)
    requires WellFormedSubstitutions(subs) && k < |subs| && Replace(s, subs[k].0, subs[k].1) == t
    ensures ApplySubstitutions(s, subs, k) == ApplySubstitutions(t, subs, k + 1)
  {
  }

  /** Two one-character pieces that spell a two-character `pat` are replaced. */
  lemma ReplacePair(c: string, d: string, x: string, pat: string, rep: string)
    requires |c| == 1 && |d| == 1 && pat == c + d
    ensures Replace(c + (d + x), pat, rep) == rep + Replace(x, pat, rep)
  {
    assert c + (d + x) == pat + x;
    ReplaceHit(x, pat, rep);
  }

  /** A one-character piece that does not start an occurrence of a
      two-character `pat` is kept. */
  lemma ReplaceSingle(c: string, y: string, pat: string, rep: string)
    requires |c| == 1 && |pat| == 2 && |y| > 0 && y[0] != pat[1]
    ensures Replace(c + y, pat, rep) == c + Replace(y, pat, rep)
  {
    var s := c + y;
    assert s[..2][1] == y[0];
    assert s[1..] == y;
  }

  /** An occurrence at the front that is removed leaves the rest to replace. */
  lemma ReplaceDrop(y: string, pat: string)
    requires |pat| > 0
    ensures Replace(pat + y, pat, "") == Replace(y, pat, "")
  {
    ReplaceHit(y, pat, "");
    assert "" + Replace(y, pat, "") == Replace(y, pat, "");
  }

  /** A text that is exactly `pat` becomes `rep`. */
  lemma ReplaceWhole(pat: string, rep: string)
    requires |pat| > 0
    ensures Replace(pat, pat, rep) == rep
  {
    ReplaceHit([], pat, rep);
    assert pat + [] == pat && rep + [] == rep;
  }

  /** A piece followed by a one-character `pat` that is removed. */
  lemma ReplaceDropLast(x: string, pat: string)
    requires |pat| == 1 && pat[0] !in x
    ensures Replace(x + pat, pat, "") == x
  {
    ReplaceMissing(x, pat, pat, "");
    ReplaceWhole(pat, "");
    assert x + [] == x;
  }

  /** The piece `A test -- with` of the text, followed by any text. */
  lemma ProblematicTitlePiece0(test: string, with: string, tail: string)
    requires test == "test" && with == "with"
    ensures "A test -- with" + tail == "A" + (" " + (test + (" " + ("-" + ("-" + (" " + (with + (tail))))))))
  {
  }

  /** The text from piece 0 on, split after that piece. */
  lemma ProblematicTitleSplit0()
    ensures "A test -- with #problematic ? characters" == "A test -- with" + " #problematic ? characters"
  {
  }

  /** The piece ` #problematic ` of the text, followed by any text. */
  lemma ProblematicTitlePiece1(problematic: string, tail: string)
    requires problematic == "problematic"
    ensures " #problematic " + tail == " " + ("#" + (problematic + (" " + (tail))))
  {
  }

  /** The text from piece 1 on, split after that piece. */
  lemma ProblematicTitleSplit1()
    ensures " #problematic ? characters" == " #problematic " + "? characters"
  {
  }

  /** The last piece `? characters` of the text. */
  lemma ProblematicTitlePiece2(characters: string)
    requires characters == "characters"
    ensures "? characters" == "?" + (" " + (characters))
  {
  }

  /** The title of the example, taken apart into its words. */
  lemma ProblematicTitle(test: string, with: string, problematic: string, characters: string)
    requires test == "test" && with == "with" && problematic == "problematic" && characters == "characters"
    ensures "A test -- with #problematic ? characters" == "A" + (" " + (test + (" " + ("-" + ("-" + (" " + (with + (" " + ("#" + (problematic + (" " + ("?" + (" " + (characters))))))))))))))
  {
    ProblematicTitlePiece2(characters);
    ProblematicTitlePiece1(problematic, "?" + (" " + (characters)));
    ProblematicTitleSplit1();
    ProblematicTitlePiece0(test, with, " " + ("#" + (problematic + (" " + ("?" + (" " + (characters)))))));
    ProblematicTitleSplit0();
  }

  /** Lower-casing the title of the example changes its first letter only. */
  lemma ProblematicLower(test: string, with: string, problematic: string, characters: string)
    requires test == "test" && with == "with" && problematic == "problematic" && characters == "characters"
    ensures LowerAscii("A test -- with #problematic ? characters") == "a" + (" " + (test + (" " + ("-" + ("-" + (" " + (with + (" " + ("#" + (problematic + (" " + ("?" + (" " + (characters))))))))))))))
  {
    var rest: string := " " + (test + (" " + ("-" + ("-" + (" " + (with + (" " + ("#" + (problematic + (" " + ("?" + (" " + (characters)))))))))))));
    ProblematicTitle(test, with, problematic, characters);
    LowerConcat("A", rest);
    LowerKeep(rest);
    assert LowerAscii("A") == "a";
  }

  /** Substitution 0: every space of the title becomes `-`. */
  lemma ProblematicSubstitution0(test: string, with: string, problematic: string, characters: string)
    requires test == "test" && with == "with" && problematic == "problematic" && characters == "characters"
    ensures Replace("a" + (" " + (test + (" " + ("-" + ("-" + (" " + (with + (" " + ("#" + (problematic + (" " + ("?" + (" " + (characters)))))))))))))), " ", "-") == "a" + ("-" + (test + ("-" + ("-" + ("-" + ("-" + (with + ("-" + ("#" + (problematic + ("-" + ("?" + ("-" + (characters))))))))))))))
  {
    var p: string, r: string := " ", "-";
    ReplaceMissingFirst(characters, p, r);
    var s14: string := characters;
    ReplaceHit(s14, p, r);
    var s13: string := p + s14;
    ReplaceMissing("?", s13, p, r);
    var s12: string := "?" + s13;
    ReplaceHit(s12, p, r);
    var s11: string := p + s12;
    ReplaceMissing(problematic, s11, p, r);
    var s10: string := problematic + s11;
    ReplaceMissing("#", s10, p, r);
    var s9: string := "#" + s10;
    ReplaceHit(s9, p, r);
    var s8: string := p + s9;
    ReplaceMissing(with, s8, p, r);
    var s7: string := with + s8;
    ReplaceHit(s7, p, r);
    var s6: string := p + s7;
    ReplaceMissing("-", s6, p, r);
    var s5: string := "-" + s6;
    ReplaceMissing("-", s5, p, r);
    var s4: string := "-" + s5;
    ReplaceHit(s4, p, r);
    var s3: string := p + s4;
    ReplaceMissing(test, s3, p, r);
    var s2: string := test + s3;
    ReplaceHit(s2, p, r);
    var s1: string := p + s2;
    ReplaceMissing("a", s1, p, r);
    var s0: string := "a" + s1;
  }

  /** Substitution 0 as a step of the whole sequence. */
  lemma ProblematicHit0(subs: seq<(string, string)>, test: string, with: string, problematic: string, characters: string)
    requires subs == SUBSTITUTIONS && WellFormedSubstitutions(subs)
    requires test == "test" && with == "with" && problematic == "problematic" && characters == "characters"
    ensures ApplySubstitutions("a" + (" " + (test + (" " + ("-" + ("-" + (" " + (with + (" " + ("#" + (problematic + (" " + ("?" + (" " + (characters)))))))))))))), subs, 0) == ApplySubstitutions("a" + ("-" + (test + ("-" + ("-" + ("-" + ("-" + (with + ("-" + ("#" + (problematic + ("-" + ("?" + ("-" + (characters)))))))))))))), subs, 1)
  {
    ProblematicSubstitution0(test, with, problematic, characters);
    SubstitutionHit("a" + (" " + (test + (" " + ("-" + ("-" + (" " + (with + (" " + ("#" + (problematic + (" " + ("?" + (" " + (characters)))))))))))))), subs, 0, "a" + ("-" + (test + ("-" + ("-" + ("-" + ("-" + (with + ("-" + ("#" + (problematic + ("-" + ("?" + ("-" + (characters)))))))))))))));
  }

  /** The title of the example holds only ID characters and `#` and `?` before substitution 1. */
  lemma ProblematicChars1(test: string, with: string, problematic: string, characters: string)
    requires test == "test" && with == "with" && problematic == "problematic" && characters == "characters"
    ensures forall c | c in "a" + ("-" + (test + ("-" + ("-" + ("-" + ("-" + (with + ("-" + ("#" + (problematic + ("-" + ("?" + ("-" + (characters)))))))))))))) :: IsIdChar(c) || c in "#?"
  {
  }

  /** Substitutions 1 to 2 find nothing to replace in the example. */
  lemma ProblematicSkip1(subs: seq<(string, string)>, test: string, with: string, problematic: string, characters: string)
    requires subs == SUBSTITUTIONS && WellFormedSubstitutions(subs)
    requires test == "test" && with == "with" && problematic == "problematic" && characters == "characters"
    ensures ApplySubstitutions("a" + ("-" + (test + ("-" + ("-" + ("-" + ("-" + (with + ("-" + ("#" + (problematic + ("-" + ("?" + ("-" + (characters)))))))))))))), subs, 1) == ApplySubstitutions("a" + ("-" + (test + ("-" + ("-" + ("-" + ("-" + (with + ("-" + ("#" + (problematic + ("-" + ("?" + ("-" + (characters)))))))))))))), subs, 3)
  {
    var s: string := "a" + ("-" + (test + ("-" + ("-" + ("-" + ("-" + (with + ("-" + ("#" + (problematic + ("-" + ("?" + ("-" + (characters))))))))))))));
    ProblematicChars1(test, with, problematic, characters);
    assert SkipsAll(subs, 2, 3, "#?");
    assert SkipsAll(subs, 1, 3, "#?");
    SubstitutionsSkipped(s, subs, 1, 3, "#?");
  }

  /** Substitution 3: every `?` of the title is removed. */
  lemma ProblematicSubstitution3(test: string, with: string, problematic: string, characters: string)
    requires test == "test" && with == "with" && problematic == "problematic" && characters == "characters"
    ensures Replace("a" + ("-" + (test + ("-" + ("-" + ("-" + ("-" + (with + ("-" + ("#" + (problematic + ("-" + ("?" + ("-" + (characters)))))))))))))), "?", "") == "a" + ("-" + (test + ("-" + ("-" + ("-" + ("-" + (with + ("-" + ("#" + (problematic + ("-" + ("-" + (characters)))))))))))))
  {
    var p: string, r: string := "?", "";
    ReplaceMissingFirst(characters, p, r);
    var s14: string := characters;
    ReplaceMissing("-", s14, p, r);
    var s13: string := "-" + s14;
    ReplaceDrop(s13, p);
    var s12: string := p + s13;
    ReplaceMissing("-", s12, p, r);
    var s11: string := "-" + s12;
    ReplaceMissing(problematic, s11, p, r);
    var s10: string := problematic + s11;
    ReplaceMissing("#", s10, p, r);
    var s9: string := "#" + s10;
    ReplaceMissing("-", s9, p, r);
    var s8: string := "-" + s9;
    ReplaceMissing(with, s8, p, r);
    var s7: string := with + s8;
    ReplaceMissing("-", s7, p, r);
    var s6: string := "-" + s7;
    ReplaceMissing("-", s6, p, r);
    var s5: string := "-" + s6;
    ReplaceMissing("-", s5, p, r);
    var s4: string := "-" + s5;
    ReplaceMissing("-", s4, p, r);
    var s3: string := "-" + s4;
    ReplaceMissing(test, s3, p, r);
    var s2: string := test + s3;
    ReplaceMissing("-", s2, p, r);
    var s1: string := "-" + s2;
    ReplaceMissing("a", s1, p, r);
    var s0: string := "a" + s1;
  }

  /** Substitution 3 as a step of the whole sequence. */
  lemma ProblematicHit3(subs: seq<(string, string)>, test: string, with: string, problematic: string, characters: string)
    requires subs == SUBSTITUTIONS && WellFormedSubstitutions(subs)
    requires test == "test" && with == "with" && problematic == "problematic" && characters == "characters"
    ensures ApplySubstitutions("a" + ("-" + (test + ("-" + ("-" + ("-" + ("-" + (with + ("-" + ("#" + (problematic + ("-" + ("?" + ("-" + (characters)))))))))))))), subs, 3) == ApplySubstitutions("a" + ("-" + (test + ("-" + ("-" + ("-" + ("-" + (with + ("-" + ("#" + (problematic + ("-" + ("-" + (characters))))))))))))), subs, 4)
  {
    ProblematicSubstitution3(test, with, problematic, characters);
    SubstitutionHit("a" + ("-" + (test + ("-" + ("-" + ("-" + ("-" + (with + ("-" + ("#" + (problematic + ("-" + ("?" + ("-" + (characters)))))))))))))), subs, 3, "a" + ("-" + (test + ("-" + ("-" + ("-" + ("-" + (with + ("-" + ("#" + (problematic + ("-" + ("-" + (characters))))))))))))));
  }

  /** The title of the example holds only ID characters and `#` before substitution 4. */
  lemma ProblematicChars4(test: string, with: string, problematic: string, characters: string)
    requires test == "test" && with == "with" && problematic == "problematic" && characters == "characters"
    ensures forall c | c in "a" + ("-" + (test + ("-" + ("-" + ("-" + ("-" + (with + ("-" + ("#" + (problematic + ("-" + ("-" + (characters))))))))))))) :: IsIdChar(c) || c in "#"
  {
  }

  /** Substitutions 4 to 6 find nothing to replace in the example. */
  lemma ProblematicSkip4(subs: seq<(string, string)>, test: string, with: string, problematic: string, characters: string)
    requires subs == SUBSTITUTIONS && WellFormedSubstitutions(subs)
    requires test == "test" && with == "with" && problematic == "problematic" && characters == "characters"
    ensures ApplySubstitutions("a" + ("-" + (test + ("-" + ("-" + ("-" + ("-" + (with + ("-" + ("#" + (problematic + ("-" + ("-" + (characters))))))))))))), subs, 4) == ApplySubstitutions("a" + ("-" + (test + ("-" + ("-" + ("-" + ("-" + (with + ("-" + ("#" + (problematic + ("-" + ("-" + (characters))))))))))))), subs, 7)
  {
    var s: string := "a" + ("-" + (test + ("-" + ("-" + ("-" + ("-" + (with + ("-" + ("#" + (problematic + ("-" + ("-" + (characters)))))))))))));
    ProblematicChars4(test, with, problematic, characters);
    assert SkipsAll(subs, 6, 7, "#");
    assert SkipsAll(subs, 5, 7, "#");
    assert SkipsAll(subs, 4, 7, "#");
    SubstitutionsSkipped(s, subs, 4, 7, "#");
  }

  /** Substitution 7: every `#` of the title is removed. */
  lemma ProblematicSubstitution7(test: string, with: string, problematic: string, characters: string)
    requires test == "test" && with == "with" && problematic == "problematic" && characters == "characters"
    ensures Replace("a" + ("-" + (test + ("-" + ("-" + ("-" + ("-" + (with + ("-" + ("#" + (problematic + ("-" + ("-" + (characters))))))))))))), "#", "") == "a" + ("-" + (test + ("-" + ("-" + ("-" + ("-" + (with + ("-" + (problematic + ("-" + ("-" + (characters))))))))))))
  {
    var p: string, r: string := "#", "";
    ReplaceMissingFirst(characters, p, r);
    var s13: string := characters;
    ReplaceMissing("-", s13, p, r);
    var s12: string := "-" + s13;
    ReplaceMissing("-", s12, p, r);
    var s11: string := "-" + s12;
    ReplaceMissing(problematic, s11, p, r);
    var s10: string := problematic + s11;
    ReplaceDrop(s10, p);
    var s9: string := p + s10;
    ReplaceMissing("-", s9, p, r);
    var s8: string := "-" + s9;
    ReplaceMissing(with, s8, p, r);
    var s7: string := with + s8;
    ReplaceMissing("-", s7, p, r);
    var s6: string := "-" + s7;
    ReplaceMissing("-", s6, p, r);
    var s5: string := "-" + s6;
    ReplaceMissing("-", s5, p, r);
    var s4: string := "-" + s5;
    ReplaceMissing("-", s4, p, r);
    var s3: string := "-" + s4;
    ReplaceMissing(test, s3, p, r);
    var s2: string := test + s3;
    ReplaceMissing("-", s2, p, r);
    var s1: string := "-" + s2;
    ReplaceMissing("a", s1, p, r);
    var s0: string := "a" + s1;
  }

  /** Substitution 7 as a step of the whole sequence. */
  lemma ProblematicHit7(subs: seq<(string, string)>, test: string, with: string, problematic: string, characters: string)
    requires subs == SUBSTITUTIONS && WellFormedSubstitutions(subs)
    requires test == "test" && with == "with" && problematic == "problematic" && characters == "characters"
    ensures ApplySubstitutions("a" + ("-" + (test + ("-" + ("-" + ("-" + ("-" + (with + ("-" + ("#" + (problematic + ("-" + ("-" + (characters))))))))))))), subs, 7) == ApplySubstitutions("a" + ("-" + (test + ("-" + ("-" + ("-" + ("-" + (with + ("-" + (problematic + ("-" + ("-" + (characters)))))))))))), subs, 8)
  {
    ProblematicSubstitution7(test, with, problematic, characters);
    SubstitutionHit("a" + ("-" + (test + ("-" + ("-" + ("-" + ("-" + (with + ("-" + ("#" + (problematic + ("-" + ("-" + (characters))))))))))))), subs, 7, "a" + ("-" + (test + ("-" + ("-" + ("-" + ("-" + (with + ("-" + (problematic + ("-" + ("-" + (characters)))))))))))));
  }

  /** The title of the example holds only ID characters at the end of the substitutions. */
  lemma ProblematicCharsReplaced(test: string, with: string, problematic: string, characters: string)
    requires test == "test" && with == "with" && problematic == "problematic" && characters == "characters"
    ensures forall c | c in "a" + ("-" + (test + ("-" + ("-" + ("-" + ("-" + (with + ("-" + (problematic + ("-" + ("-" + (characters)))))))))))) :: IsIdChar(c) || c in ""
  {
  }

  /** The substitutions from 8 on find nothing to replace in the example. */
  lemma ProblematicKeep8(subs: seq<(string, string)>, test: string, with: string, problematic: string, characters: string)
    requires subs == SUBSTITUTIONS && WellFormedSubstitutions(subs)
    requires test == "test" && with == "with" && problematic == "problematic" && characters == "characters"
    ensures ApplySubstitutions("a" + ("-" + (test + ("-" + ("-" + ("-" + ("-" + (with + ("-" + (problematic + ("-" + ("-" + (characters)))))))))))), subs, 8) == "a" + ("-" + (test + ("-" + ("-" + ("-" + ("-" + (with + ("-" + (problematic + ("-" + ("-" + (characters))))))))))))
  {
    ProblematicCharsReplaced(test, with, problematic, characters);
    SubstitutionsKeepIds("a" + ("-" + (test + ("-" + ("-" + ("-" + ("-" + (with + ("-" + (problematic + ("-" + ("-" + (characters)))))))))))), subs, 8);
  }

  /** The substitutions the example's title meets, one after the other. */
  lemma ProblematicSubstitutions(subs: seq<(string, string)>, test: string, with: string, problematic: string, characters: string)
    requires subs == SUBSTITUTIONS && WellFormedSubstitutions(subs)
    requires test == "test" && with == "with" && problematic == "problematic" && characters == "characters"
    ensures ApplySubstitutions("a" + (" " + (test + (" " + ("-" + ("-" + (" " + (with + (" " + ("#" + (problematic + (" " + ("?" + (" " + (characters)))))))))))))), subs, 0) == "a" + ("-" + (test + ("-" + ("-" + ("-" + ("-" + (with + ("-" + (problematic + ("-" + ("-" + (characters))))))))))))
  {
    ProblematicHit0(subs, test, with, problematic, characters);
    ProblematicSkip1(subs, test, with, problematic, characters);
    ProblematicHit3(subs, test, with, problematic, characters);
    ProblematicSkip4(subs, test, with, problematic, characters);
    ProblematicHit7(subs, test, with, problematic, characters);
    ProblematicKeep8(subs, test, with, problematic, characters);
  }

  /** Round 1 of squeezing the dashes of the example. */
  lemma ProblematicSqueeze0(test: string, with: string, problematic: string, characters: string)
    requires test == "test" && with == "with" && problematic == "problematic" && characters == "characters"
    ensures Replace("a" + ("-" + (test + ("-" + ("-" + ("-" + ("-" + (with + ("-" + (problematic + ("-" + ("-" + (characters)))))))))))), "--", "-") == "a" + ("-" + (test + ("-" + ("-" + (with + ("-" + (problematic + ("-" + (characters)))))))))
  {
    var p: string, r: string := "--", "-";
    ReplaceMissingFirst(characters, p, r);
    var t12: string := characters;
    ReplacePair("-", "-", t12, p, r);
    var t10: string := "-" + ("-" + t12);
    ReplaceMissing(problematic, t10, p, r);
    var t9: string := problematic + t10;
    ReplaceSingle("-", t9, p, r);
    var t8: string := "-" + t9;
    ReplaceMissing(with, t8, p, r);
    var t7: string := with + t8;
    ReplacePair("-", "-", t7, p, r);
    var t5: string := "-" + ("-" + t7);
    ReplacePair("-", "-", t5, p, r);
    var t3: string := "-" + ("-" + t5);
    ReplaceMissing(test, t3, p, r);
    var t2: string := test + t3;
    ReplaceSingle("-", t2, p, r);
    var t1: string := "-" + t2;
    ReplaceMissing("a", t1, p, r);
    var t0: string := "a" + t1;
  }

  /** Round 2 of squeezing the dashes of the example. */
  lemma ProblematicSqueeze1(test: string, with: string, problematic: string, characters: string)
    requires test == "test" && with == "with" && problematic == "problematic" && characters == "characters"
    ensures Replace("a" + ("-" + (test + ("-" + ("-" + (with + ("-" + (problematic + ("-" + (characters))))))))), "--", "-") == "a" + ("-" + (test + ("-" + (with + ("-" + (problematic + ("-" + (characters))))))))
  {
    var p: string, r: string := "--", "-";
    ReplaceMissingFirst(characters, p, r);
    var t9: string := characters;
    ReplaceSingle("-", t9, p, r);
    var t8: string := "-" + t9;
    ReplaceMissing(problematic, t8, p, r);
    var t7: string := problematic + t8;
    ReplaceSingle("-", t7, p, r);
    var t6: string := "-" + t7;
    ReplaceMissing(with, t6, p, r);
    var t5: string := with + t6;
    ReplacePair("-", "-", t5, p, r);
    var t3: string := "-" + ("-" + t5);
    ReplaceMissing(test, t3, p, r);
    var t2: string := test + t3;
    ReplaceSingle("-", t2, p, r);
    var t1: string := "-" + t2;
    ReplaceMissing("a", t1, p, r);
    var t0: string := "a" + t1;
  }

  /** The dashes of the example are squeezed: another round changes nothing. */
  lemma ProblematicSettled(test: string, with: string, problematic: string, characters: string)
    requires test == "test" && with == "with" && problematic == "problematic" && characters == "characters"
    ensures Replace("a" + ("-" + (test + ("-" + (with + ("-" + (problematic + ("-" + (characters)))))))), "--", "-") == "a" + ("-" + (test + ("-" + (with + ("-" + (problematic + ("-" + (characters))))))))
  {
    var p: string, r: string := "--", "-";
    ReplaceMissingFirst(characters, p, r);
    var t8: string := characters;
    ReplaceSingle("-", t8, p, r);
    var t7: string := "-" + t8;
    ReplaceMissing(problematic, t7, p, r);
    var t6: string := problematic + t7;
    ReplaceSingle("-", t6, p, r);
    var t5: string := "-" + t6;
    ReplaceMissing(with, t5, p, r);
    var t4: string := with + t5;
    ReplaceSingle("-", t4, p, r);
    var t3: string := "-" + t4;
    ReplaceMissing(test, t3, p, r);
    var t2: string := test + t3;
    ReplaceSingle("-", t2, p, r);
    var t1: string := "-" + t2;
    ReplaceMissing("a", t1, p, r);
    var t0: string := "a" + t1;
  }

  /** The piece `a-test-with-problematic` of the text, followed by any text. */
  lemma ProblematicWordsPiece0(test: string, with: string, problematic: string, tail: string)
    requires test == "test" && with == "with" && problematic == "problematic"
    ensures "a-test-with-problematic" + tail == "a" + ("-" + (test + ("-" + (with + ("-" + (problematic + (tail)))))))
  {
  }

  /** The text from piece 0 on, split after that piece. */
  lemma ProblematicWordsSplit0()
    ensures "a-test-with-problematic-characters" == "a-test-with-problematic" + "-characters"
  {
  }

  /** The last piece `-characters` of the text. */
  lemma ProblematicWordsPiece1(characters: string)
    requires characters == "characters"
    ensures "-characters" == "-" + (characters)
  {
  }

  /** The ID of the example, taken apart into its words. */
  lemma ProblematicWords(test: string, with: string, problematic: string, characters: string)
    requires test == "test" && with == "with" && problematic == "problematic" && characters == "characters"
    ensures "a" + ("-" + (test + ("-" + (with + ("-" + (problematic + ("-" + (characters)))))))) == "a-test-with-problematic-characters"
  {
    ProblematicWordsPiece1(characters);
    ProblematicWordsPiece0(test, with, problematic, "-" + (characters));
    ProblematicWordsSplit0();
  }

  /** Squeezing the dashes of the example leaves its ID. */
  lemma ProblematicTidy(test: string, with: string, problematic: string, characters: string)
    requires test == "test" && with == "with" && problematic == "problematic" && characters == "characters"
    ensures TidyDashes("a" + ("-" + (test + ("-" + ("-" + ("-" + ("-" + (with + ("-" + (problematic + ("-" + ("-" + (characters))))))))))))) == "a-test-with-problematic-characters"
  {
    var q0: string := "a" + ("-" + (test + ("-" + ("-" + ("-" + ("-" + (with + ("-" + (problematic + ("-" + ("-" + (characters))))))))))));
    ProblematicSqueeze0(test, with, problematic, characters);
    SqueezeStep(q0, "--", "-");
    var q1: string := "a" + ("-" + (test + ("-" + ("-" + (with + ("-" + (problematic + ("-" + (characters)))))))));
    ProblematicSqueeze1(test, with, problematic, characters);
    SqueezeStep(q1, "--", "-");
    var q2: string := "a" + ("-" + (test + ("-" + (with + ("-" + (problematic + ("-" + (characters))))))));
    ProblematicSettled(test, with, problematic, characters);
    SqueezeFixed(q2, "--", "-");
    ProblematicWords(test, with, problematic, characters);
    assert !EndsWith(q2, "-");
  }

  /** The example in the documentation of `Input::id`: spaces become dashes,
      `#` and `?` disappear, and the dashes are squeezed. */
  lemma ProblematicId()
    ensures Id("A test -- with #problematic ? characters") == "a-test-with-problematic-characters"
  {
    var test: string := "test";
    var with: string := "with";
    var problematic: string := "problematic";
    var characters: string := "characters";
    var subs := SUBSTITUTIONS;
    SubstitutionsWellFormed();
    ProblematicLower(test, with, problematic, characters);
    ProblematicSubstitutions(subs, test, with, problematic, characters);
    var replaced: string := "a" + ("-" + (test + ("-" + ("-" + ("-" + ("-" + (with + ("-" + (problematic + ("-" + ("-" + (characters))))))))))));
    ProblematicCharsReplaced(test, with, problematic, characters);
    DashKeepsIds(replaced);
    ProblematicTidy(test, with, problematic, characters);
  }

  /** The piece `A testing assembly` of the text, followed by any text. */
  lemma SpecialTitlePiece0(testing: string, assembly: string, tail: string)
    requires testing == "testing" && assembly == "assembly"
    ensures "A testing assembly" + tail == "A" + (" " + (testing + (" " + (assembly + (tail)))))
  {
  }

  /** The text from piece 0 on, split after that piece. */
  lemma SpecialTitleSplit0()
    ensures "A testing assembly with /special-characters*" == "A testing assembly" + " with /special-characters*"
  {
  }

  /** The piece ` with /special` of the text, followed by any text. */
  lemma SpecialTitlePiece1(with: string, special: string, tail: string)
    requires with == "with" && special == "special"
    ensures " with /special" + tail == " " + (with + (" " + ("/" + (special + (tail)))))
  {
  }

  /** The text from piece 1 on, split after that piece. */
  lemma SpecialTitleSplit1()
    ensures " with /special-characters*" == " with /special" + "-characters*"
  {
  }

  /** The last piece `-characters*` of the text. */
  lemma SpecialTitlePiece2(characters: string)
    requires characters == "characters"
    ensures "-characters*" == "-" + (characters + ("*"))
  {
  }

  /** The title of the example, taken apart into its words. */
  lemma SpecialTitle(testing: string, assembly: string, with: string, special: string, characters: string)
    requires testing == "testing" && assembly == "assembly" && with == "with" && special == "special" && characters == "characters"
    ensures "A testing assembly with /special-characters*" == "A" + (" " + (testing + (" " + (assembly + (" " + (with + (" " + ("/" + (special + ("-" + (characters + ("*"))))))))))))
  {
    SpecialTitlePiece2(characters);
    SpecialTitlePiece1(with, special, "-" + (characters + ("*")));
    SpecialTitleSplit1();
    SpecialTitlePiece0(testing, assembly, " " + (with + (" " + ("/" + (special + ("-" + (characters + ("*"))))))));
    SpecialTitleSplit0();
  }

  /** Lower-casing the title of the example changes its first letter only. */
  lemma SpecialLower(testing: string, assembly: string, with: string, special: string, characters: string)
    requires testing == "testing" && assembly == "assembly" && with == "with" && special == "special" && characters == "characters"
    ensures LowerAscii("A testing assembly with /special-characters*") == "a" + (" " + (testing + (" " + (assembly + (" " + (with + (" " + ("/" + (special + ("-" + (characters + ("*"))))))))))))
  {
    var rest: string := " " + (testing + (" " + (assembly + (" " + (with + (" " + ("/" + (special + ("-" + (characters + ("*")))))))))));
    SpecialTitle(testing, assembly, with, special, characters);
    LowerConcat("A", rest);
    LowerKeep(rest);
    assert LowerAscii("A") == "a";
  }

  /** Substitution 0: every space of the title becomes `-`. */
  lemma SpecialSubstitution0(testing: string, assembly: string, with: string, special: string, characters: string)
    requires testing == "testing" && assembly == "assembly" && with == "with" && special == "special" && characters == "characters"
    ensures Replace("a" + (" " + (testing + (" " + (assembly + (" " + (with + (" " + ("/" + (special + ("-" + (characters + ("*")))))))))))), " ", "-") == "a" + ("-" + (testing + ("-" + (assembly + ("-" + (with + ("-" + ("/" + (special + ("-" + (characters + ("*"))))))))))))
  {
    var p: string, r: string := " ", "-";
    ReplaceMissingFirst("*", p, r);
    var s12: string := "*";
    ReplaceMissing(characters, s12, p, r);
    var s11: string := characters + s12;
    ReplaceMissing("-", s11, p, r);
    var s10: string := "-" + s11;
    ReplaceMissing(special, s10, p, r);
    var s9: string := special + s10;
    ReplaceMissing("/", s9, p, r);
    var s8: string := "/" + s9;
    ReplaceHit(s8, p, r);
    var s7: string := p + s8;
    ReplaceMissing(with, s7, p, r);
    var s6: string := with + s7;
    ReplaceHit(s6, p, r);
    var s5: string := p + s6;
    ReplaceMissing(assembly, s5, p, r);
    var s4: string := assembly + s5;
    ReplaceHit(s4, p, r);
    var s3: string := p + s4;
    ReplaceMissing(testing, s3, p, r);
    var s2: string := testing + s3;
    ReplaceHit(s2, p, r);
    var s1: string := p + s2;
    ReplaceMissing("a", s1, p, r);
    var s0: string := "a" + s1;
  }

  /** Substitution 0 as a step of the whole sequence. */
  lemma SpecialHit0(subs: seq<(string, string)>, testing: string, assembly: string, with: string, special: string, characters: string)
    requires subs == SUBSTITUTIONS && WellFormedSubstitutions(subs)
    requires testing == "testing" && assembly == "assembly" && with == "with" && special == "special" && characters == "characters"
    ensures ApplySubstitutions("a" + (" " + (testing + (" " + (assembly + (" " + (with + (" " + ("/" + (special + ("-" + (characters + ("*")))))))))))), subs, 0) == ApplySubstitutions("a" + ("-" + (testing + ("-" + (assembly + ("-" + (with + ("-" + ("/" + (special + ("-" + (characters + ("*")))))))))))), subs, 1)
  {
    SpecialSubstitution0(testing, assembly, with, special, characters);
    SubstitutionHit("a" + (" " + (testing + (" " + (assembly + (" " + (with + (" " + ("/" + (special + ("-" + (characters + ("*")))))))))))), subs, 0, "a" + ("-" + (testing + ("-" + (assembly + ("-" + (with + ("-" + ("/" + (special + ("-" + (characters + ("*")))))))))))));
  }

  /** The title of the example holds only ID characters and `*` and `/` before substitution 1. */
  lemma SpecialChars1(testing: string, assembly: string, with: string, special: string, characters: string)
    requires testing == "testing" && assembly == "assembly" && with == "with" && special == "special" && characters == "characters"
    ensures forall c | c in "a" + ("-" + (testing + ("-" + (assembly + ("-" + (with + ("-" + ("/" + (special + ("-" + (characters + ("*")))))))))))) :: IsIdChar(c) || c in "*/"
  {
  }

  /** Substitutions 1 to 4 find nothing to replace in the example. */
  lemma SpecialSkip1(subs: seq<(string, string)>, testing: string, assembly: string, with: string, special: string, characters: string)
    requires subs == SUBSTITUTIONS && WellFormedSubstitutions(subs)
    requires testing == "testing" && assembly == "assembly" && with == "with" && special == "special" && characters == "characters"
    ensures ApplySubstitutions("a" + ("-" + (testing + ("-" + (assembly + ("-" + (with + ("-" + ("/" + (special + ("-" + (characters + ("*")))))))))))), subs, 1) == ApplySubstitutions("a" + ("-" + (testing + ("-" + (assembly + ("-" + (with + ("-" + ("/" + (special + ("-" + (characters + ("*")))))))))))), subs, 5)
  {
    var s: string := "a" + ("-" + (testing + ("-" + (assembly + ("-" + (with + ("-" + ("/" + (special + ("-" + (characters + ("*"))))))))))));
    SpecialChars1(testing, assembly, with, special, characters);
    assert SkipsAll(subs, 4, 5, "*/");
    assert SkipsAll(subs, 3, 5, "*/");
    assert SkipsAll(subs, 2, 5, "*/");
    assert SkipsAll(subs, 1, 5, "*/");
    SubstitutionsSkipped(s, subs, 1, 5, "*/");
  }

  /** Substitutions 5 to 8 find nothing to replace in the example. */
  lemma SpecialSkip5(subs: seq<(string, string)>, testing: string, assembly: string, with: string, special: string, characters: string)
    requires subs == SUBSTITUTIONS && WellFormedSubstitutions(subs)
    requires testing == "testing" && assembly == "assembly" && with == "with" && special == "special" && characters == "characters"
    ensures ApplySubstitutions("a" + ("-" + (testing + ("-" + (assembly + ("-" + (with + ("-" + ("/" + (special + ("-" + (characters + ("*")))))))))))), subs, 5) == ApplySubstitutions("a" + ("-" + (testing + ("-" + (assembly + ("-" + (with + ("-" + ("/" + (special + ("-" + (characters + ("*")))))))))))), subs, 9)
  {
    var s: string := "a" + ("-" + (testing + ("-" + (assembly + ("-" + (with + ("-" + ("/" + (special + ("-" + (characters + ("*"))))))))))));
    SpecialChars1(testing, assembly, with, special, characters);
    assert SkipsAll(subs, 8, 9, "*/");
    assert SkipsAll(subs, 7, 9, "*/");
    assert SkipsAll(subs, 6, 9, "*/");
    assert SkipsAll(subs, 5, 9, "*/");
    SubstitutionsSkipped(s, subs, 5, 9, "*/");
  }

  /** Substitution 9 finds nothing to replace in the example. */
  lemma SpecialSkip9(subs: seq<(string, string)>, testing: string, assembly: string, with: string, special: string, characters: string)
    requires subs == SUBSTITUTIONS && WellFormedSubstitutions(subs)
    requires testing == "testing" && assembly == "assembly" && with == "with" && special == "special" && characters == "characters"
    ensures ApplySubstitutions("a" + ("-" + (testing + ("-" + (assembly + ("-" + (with + ("-" + ("/" + (special + ("-" + (characters + ("*")))))))))))), subs, 9) == ApplySubstitutions("a" + ("-" + (testing + ("-" + (assembly + ("-" + (with + ("-" + ("/" + (special + ("-" + (characters + ("*")))))))))))), subs, 10)
  {
    var s: string := "a" + ("-" + (testing + ("-" + (assembly + ("-" + (with + ("-" + ("/" + (special + ("-" + (characters + ("*"))))))))))));
    SpecialChars1(testing, assembly, with, special, characters);
    assert SkipsAll(subs, 9, 10, "*/");
    SubstitutionsSkipped(s, subs, 9, 10, "*/");
  }

  /** Substitution 10: every `*` of the title is removed. */
  lemma SpecialSubstitution10(testing: string, assembly: string, with: string, special: string, characters: string)
    requires testing == "testing" && assembly == "assembly" && with == "with" && special == "special" && characters == "characters"
    ensures Replace("a" + ("-" + (testing + ("-" + (assembly + ("-" + (with + ("-" + ("/" + (special + ("-" + (characters + ("*")))))))))))), "*", "") == "a" + ("-" + (testing + ("-" + (assembly + ("-" + (with + ("-" + ("/" + (special + ("-" + (characters)))))))))))
  {
    var p: string, r: string := "*", "";
    ReplaceDropLast(characters, p);
    var s11: string := characters + p;
    ReplaceMissing("-", s11, p, r);
    var s10: string := "-" + s11;
    ReplaceMissing(special, s10, p, r);
    var s9: string := special + s10;
    ReplaceMissing("/", s9, p, r);
    var s8: string := "/" + s9;
    ReplaceMissing("-", s8, p, r);
    var s7: string := "-" + s8;
    ReplaceMissing(with, s7, p, r);
    var s6: string := with + s7;
    ReplaceMissing("-", s6, p, r);
    var s5: string := "-" + s6;
    ReplaceMissing(assembly, s5, p, r);
    var s4: string := assembly + s5;
    ReplaceMissing("-", s4, p, r);
    var s3: string := "-" + s4;
    ReplaceMissing(testing, s3, p, r);
    var s2: string := testing + s3;
    ReplaceMissing("-", s2, p, r);
    var s1: string := "-" + s2;
    ReplaceMissing("a", s1, p, r);
    var s0: string := "a" + s1;
  }

  /** Substitution 10 as a step of the whole sequence. */
  lemma SpecialHit10(subs: seq<(string, string)>, testing: string, assembly: string, with: string, special: string, characters: string)
    requires subs == SUBSTITUTIONS && WellFormedSubstitutions(subs)
    requires testing == "testing" && assembly == "assembly" && with == "with" && special == "special" && characters == "characters"
    ensures ApplySubstitutions("a" + ("-" + (testing + ("-" + (assembly + ("-" + (with + ("-" + ("/" + (special + ("-" + (characters + ("*")))))))))))), subs, 10) == ApplySubstitutions("a" + ("-" + (testing + ("-" + (assembly + ("-" + (with + ("-" + ("/" + (special + ("-" + (characters))))))))))), subs, 11)
  {
    SpecialSubstitution10(testing, assembly, with, special, characters);
    SubstitutionHit("a" + ("-" + (testing + ("-" + (assembly + ("-" + (with + ("-" + ("/" + (special + ("-" + (characters + ("*")))))))))))), subs, 10, "a" + ("-" + (testing + ("-" + (assembly + ("-" + (with + ("-" + ("/" + (special + ("-" + (characters))))))))))));
  }

  /** The title of the example holds only ID characters and `/` before substitution 11. */
  lemma SpecialChars11(testing: string, assembly: string, with: string, special: string, characters: string)
    requires testing == "testing" && assembly == "assembly" && with == "with" && special == "special" && characters == "characters"
    ensures forall c | c in "a" + ("-" + (testing + ("-" + (assembly + ("-" + (with + ("-" + ("/" + (special + ("-" + (characters))))))))))) :: IsIdChar(c) || c in "/"
  {
  }

  /** Substitutions 11 to 12 find nothing to replace in the example. */
  lemma SpecialSkip11(subs: seq<(string, string)>, testing: string, assembly: string, with: string, special: string, characters: string)
    requires subs == SUBSTITUTIONS && WellFormedSubstitutions(subs)
    requires testing == "testing" && assembly == "assembly" && with == "with" && special == "special" && characters == "characters"
    ensures ApplySubstitutions("a" + ("-" + (testing + ("-" + (assembly + ("-" + (with + ("-" + ("/" + (special + ("-" + (characters))))))))))), subs, 11) == ApplySubstitutions("a" + ("-" + (testing + ("-" + (assembly + ("-" + (with + ("-" + ("/" + (special + ("-" + (characters))))))))))), subs, 13)
  {
    var s: string := "a" + ("-" + (testing + ("-" + (assembly + ("-" + (with + ("-" + ("/" + (special + ("-" + (characters)))))))))));
    SpecialChars11(testing, assembly, with, special, characters);
    assert SkipsAll(subs, 12, 13, "/");
    assert SkipsAll(subs, 11, 13, "/");
    SubstitutionsSkipped(s, subs, 11, 13, "/");
  }

  /** Substitution 13: every `/` of the title becomes `-`. */
  lemma SpecialSubstitution13(testing: string, assembly: string, with: string, special: string, characters: string)
    requires testing == "testing" && assembly == "assembly" && with == "with" && special == "special" && characters == "characters"
    ensures Replace("a" + ("-" + (testing + ("-" + (assembly + ("-" + (with + ("-" + ("/" + (special + ("-" + (characters))))))))))), "/", "-") == "a" + ("-" + (testing + ("-" + (assembly + ("-" + (with + ("-" + ("-" + (special + ("-" + (characters)))))))))))
  {
    var p: string, r: string := "/", "-";
    ReplaceMissingFirst(characters, p, r);
    var s11: string := characters;
    ReplaceMissing("-", s11, p, r);
    var s10: string := "-" + s11;
    ReplaceMissing(special, s10, p, r);
    var s9: string := special + s10;
    ReplaceHit(s9, p, r);
    var s8: string := p + s9;
    ReplaceMissing("-", s8, p, r);
    var s7: string := "-" + s8;
    ReplaceMissing(with, s7, p, r);
    var s6: string := with + s7;
    ReplaceMissing("-", s6, p, r);
    var s5: string := "-" + s6;
    ReplaceMissing(assembly, s5, p, r);
    var s4: string := assembly + s5;
    ReplaceMissing("-", s4, p, r);
    var s3: string := "-" + s4;
    ReplaceMissing(testing, s3, p, r);
    var s2: string := testing + s3;
    ReplaceMissing("-", s2, p, r);
    var s1: string := "-" + s2;
    ReplaceMissing("a", s1, p, r);
    var s0: string := "a" + s1;
  }

  /** Substitution 13 as a step of the whole sequence. */
  lemma SpecialHit13(subs: seq<(string, string)>, testing: string, assembly: string, with: string, special: string, characters: string)
    requires subs == SUBSTITUTIONS && WellFormedSubstitutions(subs)
    requires testing == "testing" && assembly == "assembly" && with == "with" && special == "special" && characters == "characters"
    ensures ApplySubstitutions("a" + ("-" + (testing + ("-" + (assembly + ("-" + (with + ("-" + ("/" + (special + ("-" + (characters))))))))))), subs, 13) == ApplySubstitutions("a" + ("-" + (testing + ("-" + (assembly + ("-" + (with + ("-" + ("-" + (special + ("-" + (characters))))))))))), subs, 14)
  {
    SpecialSubstitution13(testing, assembly, with, special, characters);
    SubstitutionHit("a" + ("-" + (testing + ("-" + (assembly + ("-" + (with + ("-" + ("/" + (special + ("-" + (characters))))))))))), subs, 13, "a" + ("-" + (testing + ("-" + (assembly + ("-" + (with + ("-" + ("-" + (special + ("-" + (characters))))))))))));
  }

  /** The title of the example holds only ID characters at the end of the substitutions. */
  lemma SpecialCharsReplaced(testing: string, assembly: string, with: string, special: string, characters: string)
    requires testing == "testing" && assembly == "assembly" && with == "with" && special == "special" && characters == "characters"
    ensures forall c | c in "a" + ("-" + (testing + ("-" + (assembly + ("-" + (with + ("-" + ("-" + (special + ("-" + (characters))))))))))) :: IsIdChar(c) || c in ""
  {
  }

  /** The substitutions from 14 on find nothing to replace in the example. */
  lemma SpecialKeep14(subs: seq<(string, string)>, testing: string, assembly: string, with: string, special: string, characters: string)
    requires subs == SUBSTITUTIONS && WellFormedSubstitutions(subs)
    requires testing == "testing" && assembly == "assembly" && with == "with" && special == "special" && characters == "characters"
    ensures ApplySubstitutions("a" + ("-" + (testing + ("-" + (assembly + ("-" + (with + ("-" + ("-" + (special + ("-" + (characters))))))))))), subs, 14) == "a" + ("-" + (testing + ("-" + (assembly + ("-" + (with + ("-" + ("-" + (special + ("-" + (characters)))))))))))
  {
    SpecialCharsReplaced(testing, assembly, with, special, characters);
    SubstitutionsKeepIds("a" + ("-" + (testing + ("-" + (assembly + ("-" + (with + ("-" + ("-" + (special + ("-" + (characters))))))))))), subs, 14);
  }

  /** The substitutions the example's title meets, one after the other. */
  lemma SpecialSubstitutions(subs: seq<(string, string)>, testing: string, assembly: string, with: string, special: string, characters: string)
    requires subs == SUBSTITUTIONS && WellFormedSubstitutions(subs)
    requires testing == "testing" && assembly == "assembly" && with == "with" && special == "special" && characters == "characters"
    ensures ApplySubstitutions("a" + (" " + (testing + (" " + (assembly + (" " + (with + (" " + ("/" + (special + ("-" + (characters + ("*")))))))))))), subs, 0) == "a" + ("-" + (testing + ("-" + (assembly + ("-" + (with + ("-" + ("-" + (special + ("-" + (characters)))))))))))
  {
    SpecialHit0(subs, testing, assembly, with, special, characters);
    SpecialSkip1(subs, testing, assembly, with, special, characters);
    SpecialSkip5(subs, testing, assembly, with, special, characters);
    SpecialSkip9(subs, testing, assembly, with, special, characters);
    SpecialHit10(subs, testing, assembly, with, special, characters);
    SpecialSkip11(subs, testing, assembly, with, special, characters);
    SpecialHit13(subs, testing, assembly, with, special, characters);
    SpecialKeep14(subs, testing, assembly, with, special, characters);
  }

  /** Round 1 of squeezing the dashes of the example. */
  lemma SpecialSqueeze0(testing: string, assembly: string, with: string, special: string, characters: string)
    requires testing == "testing" && assembly == "assembly" && with == "with" && special == "special" && characters == "characters"
    ensures Replace("a" + ("-" + (testing + ("-" + (assembly + ("-" + (with + ("-" + ("-" + (special + ("-" + (characters))))))))))), "--", "-") == "a" + ("-" + (testing + ("-" + (assembly + ("-" + (with + ("-" + (special + ("-" + (characters))))))))))
  {
    var p: string, r: string := "--", "-";
    ReplaceMissingFirst(characters, p, r);
    var t11: string := characters;
    ReplaceSingle("-", t11, p, r);
    var t10: string := "-" + t11;
    ReplaceMissing(special, t10, p, r);
    var t9: string := special + t10;
    ReplacePair("-", "-", t9, p, r);
    var t7: string := "-" + ("-" + t9);
    ReplaceMissing(with, t7, p, r);
    var t6: string := with + t7;
    ReplaceSingle("-", t6, p, r);
    var t5: string := "-" + t6;
    ReplaceMissing(assembly, t5, p, r);
    var t4: string := assembly + t5;
    ReplaceSingle("-", t4, p, r);
    var t3: string := "-" + t4;
    ReplaceMissing(testing, t3, p, r);
    var t2: string := testing + t3;
    ReplaceSingle("-", t2, p, r);
    var t1: string := "-" + t2;
    ReplaceMissing("a", t1, p, r);
    var t0: string := "a" + t1;
  }

  /** The dashes of the example are squeezed: another round changes nothing. */
  lemma SpecialSettled(testing: string, assembly: string, with: string, special: string, characters: string)
    requires testing == "testing" && assembly == "assembly" && with == "with" && special == "special" && characters == "characters"
    ensures Replace("a" + ("-" + (testing + ("-" + (assembly + ("-" + (with + ("-" + (special + ("-" + (characters)))))))))), "--", "-") == "a" + ("-" + (testing + ("-" + (assembly + ("-" + (with + ("-" + (special + ("-" + (characters))))))))))
  {
    var p: string, r: string := "--", "-";
    ReplaceMissingFirst(characters, p, r);
    var t10: string := characters;
    ReplaceSingle("-", t10, p, r);
    var t9: string := "-" + t10;
    ReplaceMissing(special, t9, p, r);
    var t8: string := special + t9;
    ReplaceSingle("-", t8, p, r);
    var t7: string := "-" + t8;
    ReplaceMissing(with, t7, p, r);
    var t6: string := with + t7;
    ReplaceSingle("-", t6, p, r);
    var t5: string := "-" + t6;
    ReplaceMissing(assembly, t5, p, r);
    var t4: string := assembly + t5;
    ReplaceSingle("-", t4, p, r);
    var t3: string := "-" + t4;
    ReplaceMissing(testing, t3, p, r);
    var t2: string := testing + t3;
    ReplaceSingle("-", t2, p, r);
    var t1: string := "-" + t2;
    ReplaceMissing("a", t1, p, r);
    var t0: string := "a" + t1;
  }

  /** The piece `a-testing-assembly` of the text, followed by any text. */
  lemma SpecialWordsPiece0(testing: string, assembly: string, tail: string)
    requires testing == "testing" && assembly == "assembly"
    ensures "a-testing-assembly" + tail == "a" + ("-" + (testing + ("-" + (assembly + (tail)))))
  {
  }

  /** The text from piece 0 on, split after that piece. */
  lemma SpecialWordsSplit0()
    ensures "a-testing-assembly-with-special-characters" == "a-testing-assembly" + "-with-special-characters"
  {
  }

  /** The piece `-with-special-` of the text, followed by any text. */
  lemma SpecialWordsPiece1(with: string, special: string, tail: string)
    requires with == "with" && special == "special"
    ensures "-with-special-" + tail == "-" + (with + ("-" + (special + ("-" + (tail)))))
  {
  }

  /** The text from piece 1 on, split after that piece. */
  lemma SpecialWordsSplit1()
    ensures "-with-special-characters" == "-with-special-" + "characters"
  {
  }

  /** The last piece `characters` of the text. */
  lemma SpecialWordsPiece2(characters: string)
    requires characters == "characters"
    ensures "characters" == characters
  {
  }

  /** The ID of the example, taken apart into its words. */
  lemma SpecialWords(testing: string, assembly: string, with: string, special: string, characters: string)
    requires testing == "testing" && assembly == "assembly" && with == "with" && special == "special" && characters == "characters"
    ensures "a" + ("-" + (testing + ("-" + (assembly + ("-" + (with + ("-" + (special + ("-" + (characters)))))))))) == "a-testing-assembly-with-special-characters"
  {
    SpecialWordsPiece2(characters);
    SpecialWordsPiece1(with, special, characters);
    SpecialWordsSplit1();
    SpecialWordsPiece0(testing, assembly, "-" + (with + ("-" + (special + ("-" + (characters))))));
    SpecialWordsSplit0();
  }

  /** Squeezing the dashes of the example leaves its ID. */
  lemma SpecialTidy(testing: string, assembly: string, with: string, special: string, characters: string)
    requires testing == "testing" && assembly == "assembly" && with == "with" && special == "special" && characters == "characters"
    ensures TidyDashes("a" + ("-" + (testing + ("-" + (assembly + ("-" + (with + ("-" + ("-" + (special + ("-" + (characters)))))))))))) == "a-testing-assembly-with-special-characters"
  {
    var q0: string := "a" + ("-" + (testing + ("-" + (assembly + ("-" + (with + ("-" + ("-" + (special + ("-" + (characters)))))))))));
    SpecialSqueeze0(testing, assembly, with, special, characters);
    SqueezeStep(q0, "--", "-");
    var q1: string := "a" + ("-" + (testing + ("-" + (assembly + ("-" + (with + ("-" + (special + ("-" + (characters))))))))));
    SpecialSettled(testing, assembly, with, special, characters);
    SqueezeFixed(q1, "--", "-");
    SpecialWords(testing, assembly, with, special, characters);
    assert !EndsWith(q1, "-");
  }

  /** The title of the tests of `Module::new`: `/` becomes a dash, `*`
      disappears, and the doubled dash is squeezed. */
  lemma SpecialId()
    ensures Id("A testing assembly with /special-characters*") == "a-testing-assembly-with-special-characters"
  {
    var testing: string := "testing";
    var assembly: string := "assembly";
    var with: string := "with";
    var special: string := "special";
    var characters: string := "characters";
    var subs := SUBSTITUTIONS;
    SubstitutionsWellFormed();
    SpecialLower(testing, assembly, with, special, characters);
    SpecialSubstitutions(subs, testing, assembly, with, special, characters);
    var replaced: string := "a" + ("-" + (testing + ("-" + (assembly + ("-" + (with + ("-" + ("-" + (special + ("-" + (characters)))))))))));
    SpecialCharsReplaced(testing, assembly, with, special, characters);
    DashKeepsIds(replaced);
    SpecialTidy(testing, assembly, with, special, characters);
  }

  /** The last piece `Testing the detected path` of the text. */
  lemma DetectedTitlePiece0(esting: string, the: string, detected: string, path: string)
    requires esting == "esting" && the == "the" && detected == "detected" && path == "path"
    ensures "Testing the detected path" == "T" + (esting + (" " + (the + (" " + (detected + (" " + (path)))))))
  {
  }

  /** The title of the example, taken apart into its words. */
  lemma DetectedTitle(esting: string, the: string, detected: string, path: string)
    requires esting == "esting" && the == "the" && detected == "detected" && path == "path"
    ensures "Testing the detected path" == "T" + (esting + (" " + (the + (" " + (detected + (" " + (path)))))))
  {
    DetectedTitlePiece0(esting, the, detected, path);
  }

  /** Lower-casing the title of the example changes its first letter only. */
  lemma DetectedLower(esting: string, the: string, detected: string, path: string)
    requires esting == "esting" && the == "the" && detected == "detected" && path == "path"
    ensures LowerAscii("Testing the detected path") == "t" + (esting + (" " + (the + (" " + (detected + (" " + (path)))))))
  {
    var rest: string := esting + (" " + (the + (" " + (detected + (" " + (path))))));
    DetectedTitle(esting, the, detected, path);
    LowerConcat("T", rest);
    LowerKeep(rest);
    assert LowerAscii("T") == "t";
  }

  /** Substitution 0: every space of the title becomes `-`. */
  lemma DetectedSubstitution0(esting: string, the: string, detected: string, path: string)
    requires esting == "esting" && the == "the" && detected == "detected" && path == "path"
    ensures Replace("t" + (esting + (" " + (the + (" " + (detected + (" " + (path))))))), " ", "-") == "t" + (esting + ("-" + (the + ("-" + (detected + ("-" + (path)))))))
  {
    var p: string, r: string := " ", "-";
    ReplaceMissingFirst(path, p, r);
    var s7: string := path;
    ReplaceHit(s7, p, r);
    var s6: string := p + s7;
    ReplaceMissing(detected, s6, p, r);
    var s5: string := detected + s6;
    ReplaceHit(s5, p, r);
    var s4: string := p + s5;
    ReplaceMissing(the, s4, p, r);
    var s3: string := the + s4;
    ReplaceHit(s3, p, r);
    var s2: string := p + s3;
    ReplaceMissing(esting, s2, p, r);
    var s1: string := esting + s2;
    ReplaceMissing("t", s1, p, r);
    var s0: string := "t" + s1;
  }

  /** Substitution 0 as a step of the whole sequence. */
  lemma DetectedHit0(subs: seq<(string, string)>, esting: string, the: string, detected: string, path: string)
    requires subs == SUBSTITUTIONS && WellFormedSubstitutions(subs)
    requires esting == "esting" && the == "the" && detected == "detected" && path == "path"
    ensures ApplySubstitutions("t" + (esting + (" " + (the + (" " + (detected + (" " + (path))))))), subs, 0) == ApplySubstitutions("t" + (esting + ("-" + (the + ("-" + (detected + ("-" + (path))))))), subs, 1)
  {
    DetectedSubstitution0(esting, the, detected, path);
    SubstitutionHit("t" + (esting + (" " + (the + (" " + (detected + (" " + (path))))))), subs, 0, "t" + (esting + ("-" + (the + ("-" + (detected + ("-" + (path))))))));
  }

  /** The title of the example holds only ID characters at the end of the substitutions. */
  lemma DetectedCharsReplaced(esting: string, the: string, detected: string, path: string)
    requires esting == "esting" && the == "the" && detected == "detected" && path == "path"
    ensures forall c | c in "t" + (esting + ("-" + (the + ("-" + (detected + ("-" + (path))))))) :: IsIdChar(c) || c in ""
  {
  }

  /** The substitutions from 1 on find nothing to replace in the example. */
  lemma DetectedKeep1(subs: seq<(string, string)>, esting: string, the: string, detected: string, path: string)
    requires subs == SUBSTITUTIONS && WellFormedSubstitutions(subs)
    requires esting == "esting" && the == "the" && detected == "detected" && path == "path"
    ensures ApplySubstitutions("t" + (esting + ("-" + (the + ("-" + (detected + ("-" + (path))))))), subs, 1) == "t" + (esting + ("-" + (the + ("-" + (detected + ("-" + (path)))))))
  {
    DetectedCharsReplaced(esting, the, detected, path);
    SubstitutionsKeepIds("t" + (esting + ("-" + (the + ("-" + (detected + ("-" + (path))))))), subs, 1);
  }

  /** The substitutions the example's title meets, one after the other. */
  lemma DetectedSubstitutions(subs: seq<(string, string)>, esting: string, the: string, detected: string, path: string)
    requires subs == SUBSTITUTIONS && WellFormedSubstitutions(subs)
    requires esting == "esting" && the == "the" && detected == "detected" && path == "path"
    ensures ApplySubstitutions("t" + (esting + (" " + (the + (" " + (detected + (" " + (path))))))), subs, 0) == "t" + (esting + ("-" + (the + ("-" + (detected + ("-" + (path)))))))
  {
    DetectedHit0(subs, esting, the, detected, path);
    DetectedKeep1(subs, esting, the, detected, path);
  }

  /** The dashes of the example are squeezed: another round changes nothing. */
  lemma DetectedSettled(esting: string, the: string, detected: string, path: string)
    requires esting == "esting" && the == "the" && detected == "detected" && path == "path"
    ensures Replace("t" + (esting + ("-" + (the + ("-" + (detected + ("-" + (path))))))), "--", "-") == "t" + (esting + ("-" + (the + ("-" + (detected + ("-" + (path)))))))
  {
    var p: string, r: string := "--", "-";
    ReplaceMissingFirst(path, p, r);
    var t7: string := path;
    ReplaceSingle("-", t7, p, r);
    var t6: string := "-" + t7;
    ReplaceMissing(detected, t6, p, r);
    var t5: string := detected + t6;
    ReplaceSingle("-", t5, p, r);
    var t4: string := "-" + t5;
    ReplaceMissing(the, t4, p, r);
    var t3: string := the + t4;
    ReplaceSingle("-", t3, p, r);
    var t2: string := "-" + t3;
    ReplaceMissing(esting, t2, p, r);
    var t1: string := esting + t2;
    ReplaceMissing("t", t1, p, r);
    var t0: string := "t" + t1;
  }

  /** The last piece `testing-the-detected-path` of the text. */
  lemma DetectedWordsPiece0(esting: string, the: string, detected: string, path: string)
    requires esting == "esting" && the == "the" && detected == "detected" && path == "path"
    ensures "testing-the-detected-path" == "t" + (esting + ("-" + (the + ("-" + (detected + ("-" + (path)))))))
  {
  }

  /** The ID of the example, taken apart into its words. */
  lemma DetectedWords(esting: string, the: string, detected: string, path: string)
    requires esting == "esting" && the == "the" && detected == "detected" && path == "path"
    ensures "t" + (esting + ("-" + (the + ("-" + (detected + ("-" + (path))))))) == "testing-the-detected-path"
  {
    DetectedWordsPiece0(esting, the, detected, path);
  }

  /** Squeezing the dashes of the example leaves its ID. */
  lemma DetectedTidy(esting: string, the: string, detected: string, path: string)
    requires esting == "esting" && the == "the" && detected == "detected" && path == "path"
    ensures TidyDashes("t" + (esting + ("-" + (the + ("-" + (detected + ("-" + (path)))))))) == "testing-the-detected-path"
  {
    var q0: string := "t" + (esting + ("-" + (the + ("-" + (detected + ("-" + (path)))))));
    DetectedSettled(esting, the, detected, path);
    SqueezeFixed(q0, "--", "-");
    DetectedWords(esting, the, detected, path);
    assert !EndsWith(q0, "-");
  }

  /** The title of the test of the detected include path. */
  lemma DetectedId()
    ensures Id("Testing the detected path") == "testing-the-detected-path"
  {
    var esting: string := "esting";
    var the: string := "the";
    var detected: string := "detected";
    var path: string := "path";
    var subs := SUBSTITUTIONS;
    SubstitutionsWellFormed();
    DetectedLower(esting, the, detected, path);
    DetectedSubstitutions(subs, esting, the, detected, path);
    var replaced: string := "t" + (esting + ("-" + (the + ("-" + (detected + ("-" + (path)))))));
    DetectedCharsReplaced(esting, the, detected, path);
    DashKeepsIds(replaced);
    DetectedTidy(esting, the, detected, path);
  }

  /** The names of a new module follow from the ID of its title. */
  lemma NewModuleNames(t: ContentType, title: string, id: string, options: Options, components: seq<string>,
                       render: Fields -> string, strip: string -> string)
    requires Id(title) == id
    ensures var m := NewModule(t, title, options, components, render, strip);
      && m.anchor == (if options.anchorPrefixes then Prefix(t) else "") + id
      && m.fileName == (if options.filePrefixes then Prefix(t) else "") + id + ".adoc"
      && m.includeStatement == IncludeLine(IncludeDir(t, components), m.fileName)
  {
  }

  /** `check_basic_assembly_fields`: with file prefixes on, anchor prefixes
      off, and a target directory outside any `assemblies` directory, a new
      assembly gets the ID of its title as anchor, the prefixed file name, and
      an include statement with the placeholder path. */
  lemma BasicAssemblyFields(options: Options, components: seq<string>,
                            render: Fields -> string, strip: string -> string)
    requires options.filePrefixes && !options.anchorPrefixes
    requires "assemblies" !in components
    ensures var m := NewModule(Assembly, "A testing assembly with /special-characters*", options, components, render, strip);
      && m.modType == Assembly
      && m.title == "A testing assembly with /special-characters*"
      && m.anchor == "a-testing-assembly-with-special-characters"
      && m.fileName == "assembly_" + "a-testing-assembly-with-special-characters" + ".adoc"
      && m.includeStatement == "include::" + "<path>" + "/" + ("assembly_" + "a-testing-assembly-with-special-characters" + ".adoc") + "[leveloffset=+1]"
      && m.includes == None
  {
    var title, id := "A testing assembly with /special-characters*", "a-testing-assembly-with-special-characters";
    SpecialId();
    NewModuleNames(Assembly, title, id, options, components, render, strip);
    assert LastPosition(components, "assemblies") == -1;
  }

  /** The substitutions `subs[k..m]` all start with characters outside `others`. */
  lemma {:induction false} SkipsAllOf(subs: seq<(string, string)>, k: nat, m: nat, others: string)
    requires WellFormedSubstitutions(subs) && k <= m <= |subs|
    requires forall i | k <= i < m :: subs[i].0[0] !in others
    ensures SkipsAll(subs, k, m, others)
    decreases m - k
  {
    if k < m {
      SkipsAllOf(subs, k + 1, m, others);
    }
  }

  /** Bracketed markup passes a pattern that starts like it but differs in
      its second character, when nothing after the start opens a bracket. */
  lemma MarkupMiss(s: string, pat: string)
    requires 2 <= |s| && 2 <= |pat| && s[1] != pat[1] && pat[0] !in s[1..]
    ensures Replace(s, pat, "") == s
  {
    if |s| >= |pat| {
      assert s[..|pat|][1] == s[1];
      ReplaceMissingFirst(s[1..], pat, "");
      assert [s[0]] + s[1..] == s;
    }
  }

  /** The markup patterns before `[command]` leave `[command]` between two
      pieces without brackets alone. */
  lemma CommandPasses(a: string, markup: string, b: string, subs: seq<(string, string)>, k: nat)
    requires subs == SUBSTITUTIONS && WellFormedSubstitutions(subs) && 23 <= k < 27
    requires markup == "[command]" && '[' !in a && '[' !in b
    ensures ApplySubstitutions(a + (markup + b), subs, k) == ApplySubstitutions(a + (markup + b), subs, k + 1)
  {
    var pat := subs[k].0;
    assert pat[0] == '[' && pat[1] != 'c' && subs[k].1 == "";
    var rest := markup + b;
    assert rest[1] == 'c' && rest[1..] == markup[1..] + b;
    assert '[' !in markup[1..];
    MarkupMiss(rest, pat);
    ReplaceMissing(a, rest, pat, "");
  }

  /** No substitution before the markup words starts with a bracket. */
  lemma BracketSkips(subs: seq<(string, string)>)
    requires subs == SUBSTITUTIONS && WellFormedSubstitutions(subs)
    ensures SkipsAll(subs, 0, 23, "[]")
  {
    assert forall i | 0 <= i < 23 :: |subs[i].0| == 1 && subs[i].0[0] != '[' && subs[i].0[0] != ']';
    SkipsAllOf(subs, 0, 23, "[]");
  }

  /** No substitution before the at sign's starts with an at sign. */
  lemma AtSkips(subs: seq<(string, string)>)
    requires subs == SUBSTITUTIONS && WellFormedSubstitutions(subs)
    ensures SkipsAll(subs, 0, 16, "@")
  {
    assert forall i | 0 <= i < 16 :: subs[i].0[0] != '@';
    SkipsAllOf(subs, 0, 16, "@");
  }

  /** The characters of `a[command]b` are ID characters and brackets. */
  lemma CommandChars(a: string, markup: string, b: string)
    requires markup == "[command]"
    requires forall c | c in a + b :: IsIdChar(c)
    ensures forall c | c in a + (markup + b) :: IsIdChar(c) || c in "[]"
    ensures '[' !in a && '[' !in b
  {
    assert forall c | c in a :: c in a + b;
    assert forall c | c in b :: c in a + b;
    assert forall c | c in markup :: IsIdChar(c) || c in "[]";
  }

  /** Substitution 27 removes `[command]`. */
  lemma CommandHit(a: string, markup: string, b: string, subs: seq<(string, string)>)
    requires subs == SUBSTITUTIONS && WellFormedSubstitutions(subs) && markup == "[command]"
    requires '[' !in a && '[' !in b
    ensures ApplySubstitutions(a + (markup + b), subs, 27) == ApplySubstitutions(a + b, subs, 28)
  {
    assert subs[27] == (markup, "");
    ReplaceMissing(a, markup + b, markup, "");
    ReplaceHit(b, markup, "");
    ReplaceMissingFirst(b, markup, "");
    SubstitutionHit(a + (markup + b), subs, 27, a + b);
  }

  /** Substitutions 23 to 26 leave `a[command]b` alone. */
  lemma CommandPassesAll(a: string, markup: string, b: string, subs: seq<(string, string)>)
    requires subs == SUBSTITUTIONS && WellFormedSubstitutions(subs) && markup == "[command]"
    requires '[' !in a && '[' !in b
    ensures ApplySubstitutions(a + (markup + b), subs, 23) == ApplySubstitutions(a + (markup + b), subs, 27)
  {
    CommandPasses(a, markup, b, subs, 23);
    CommandPasses(a, markup, b, subs, 24);
    CommandPasses(a, markup, b, subs, 25);
    CommandPasses(a, markup, b, subs, 26);
  }

  /** From substitution 23 on, `a[command]b` becomes `ab`. */
  lemma CommandTail(a: string, markup: string, b: string, subs: seq<(string, string)>)
    requires subs == SUBSTITUTIONS && WellFormedSubstitutions(subs) && markup == "[command]"
    requires forall c | c in a + b :: IsIdChar(c)
    ensures ApplySubstitutions(a + (markup + b), subs, 23) == a + b
  {
    CommandChars(a, markup, b);
    CommandPassesAll(a, markup, b, subs);
    CommandHit(a, markup, b, subs);
    SubstitutionsKeepIds(a + b, subs, 28);
  }

  /** The substitutions turn `a[command]b` into `ab`. */
  lemma CommandSubstitutions(a: string, markup: string, b: string, subs: seq<(string, string)>)
    requires subs == SUBSTITUTIONS && WellFormedSubstitutions(subs) && markup == "[command]"
    requires forall c | c in a + b :: IsIdChar(c)
    ensures ApplySubstitutions(a + (markup + b), subs, 0) == a + b
  {
    CommandChars(a, markup, b);
    BracketSkips(subs);
    SubstitutionsSkipped(a + (markup + b), subs, 0, 23, "[]");
    CommandTail(a, markup, b, subs);
  }

  /** Semantic markup vanishes whole: the brackets are removed only after
      the known markup words, so `[command]` leaves nothing behind, not even
      the word `command`. */
  lemma MarkupRemovedWhole(a: string, markup: string, b: string)
    requires markup == "[command]"
    requires forall c | c in a + b :: IsIdChar(c)
    ensures Id(a + markup + b) == Id(a + b)
  {
    var subs := SUBSTITUTIONS;
    SubstitutionsWellFormed();
    var s := a + (markup + b);
    assert a + markup + b == s;
    forall c | c in s
      ensures !IsUpper(c)
    {
      if c in a || c in b {
        assert c in a + b;
      }
    }
    LowerKeep(s);
    CommandSubstitutions(a, markup, b, subs);
    DashKeepsIds(a + b);
    ReplacedKeepsIds(a + b);
  }

  /** Substitution 16 turns an at sign between two pieces of ID characters
      into `-at-`. */
  lemma AtHit(a: string, at: string, b: string, subs: seq<(string, string)>)
    requires subs == SUBSTITUTIONS && WellFormedSubstitutions(subs) && at == "@"
    requires '@' !in a && '@' !in b
    ensures ApplySubstitutions(a + (at + b), subs, 16) == ApplySubstitutions(a + ("-at-" + b), subs, 17)
  {
    assert subs[16] == (at, "-at-");
    ReplaceMissing(a, at + b, at, "-at-");
    ReplaceHit(b, at, "-at-");
    ReplaceMissingFirst(b, at, "-at-");
    SubstitutionHit(a + (at + b), subs, 16, a + ("-at-" + b));
  }

  /** The characters of `a@b` are ID characters and the at sign, and those of
      `a-at-b` are ID characters. */
  lemma AtChars(a: string, at: string, b: string)
    requires at == "@"
    requires forall c | c in a + b :: IsIdChar(c)
    ensures forall c | c in a + (at + b) :: IsIdChar(c) || c in "@"
    ensures forall c | c in a + ("-at-" + b) :: IsIdChar(c)
    ensures '@' !in a && '@' !in b
  {
    assert forall c | c in a :: c in a + b;
    assert forall c | c in b :: c in a + b;
    assert forall c | c in "-at-" :: IsIdChar(c);
  }

  /** From substitution 16 on, `a@b` becomes `a-at-b`. */
  lemma AtTail(a: string, at: string, b: string, subs: seq<(string, string)>)
    requires subs == SUBSTITUTIONS && WellFormedSubstitutions(subs) && at == "@"
    requires forall c | c in a + b :: IsIdChar(c)
    ensures ApplySubstitutions(a + (at + b), subs, 16) == a + ("-at-" + b)
  {
    AtChars(a, at, b);
    AtHit(a, at, b, subs);
    SubstitutionsKeepIds(a + ("-at-" + b), subs, 17);
  }

  /** The substitutions turn `a@b` into `a-at-b`. */
  lemma AtSubstitutions(a: string, at: string, b: string, subs: seq<(string, string)>)
    requires subs == SUBSTITUTIONS && WellFormedSubstitutions(subs) && at == "@"
    requires forall c | c in a + b :: IsIdChar(c)
    ensures ApplySubstitutions(a + (at + b), subs, 0) == a + ("-at-" + b)
  {
    AtChars(a, at, b);
    AtSkips(subs);
    SubstitutionsSkipped(a + (at + b), subs, 0, 16, "@");
    AtTail(a, at, b, subs);
  }

  /** An at sign becomes the word `at` between dashes. */
  lemma AtBecomesWord(a: string, at: string, b: string)
    requires at == "@"
    requires forall c | c in a + b :: IsIdChar(c)
    ensures Id(a + at + b) == Id(a + "-at-" + b)
  {
    var subs := SUBSTITUTIONS;
    SubstitutionsWellFormed();
    var s := a + (at + b);
    var t := a + ("-at-" + b);
    assert a + at + b == s && a + "-at-" + b == t;
    AtChars(a, at, b);
    LowerKeep(s);
    AtSubstitutions(a, at, b, subs);
    ReplacedKeepsIds(t);
    DashKeepsIds(t);
  }

  /** The include directory of a procedure under `repo/modules/topic`. */
  lemma DetectedDir(prefix: seq<string>)
    ensures IncludeDir(Procedure, prefix + ["repo", "modules", "topic"]) == "modules/topic"
  {
    var components := prefix + ["repo", "modules", "topic"];
    var n := |prefix|;
    assert components[n + 1] == "modules" && components[n + 2] == "topic";
    var position := LastPosition(components, "modules");
    assert position == n + 1;
    assert components[n + 1..] == ["modules", "topic"];
    assert Join(["modules", "topic"], "/") == "modules/topic";
  }

  /** `check_detected_path`: the include path of a procedure starts at the
      last `modules` component of the target directory, whatever the
      components before `repo/modules/topic`. */
  lemma DetectedPath(options: Options, prefix: seq<string>,
                     render: Fields -> string, strip: string -> string)
    requires options.filePrefixes
    ensures var m := NewModule(Procedure, "Testing the detected path", options, prefix + ["repo", "modules", "topic"], render, strip);
      m.includeStatement == "include::" + "modules/topic" + "/" + ("proc_" + "testing-the-detected-path" + ".adoc") + "[leveloffset=+1]"
  {
    var title, id := "Testing the detected path", "testing-the-detected-path";
    DetectedId();
    NewModuleNames(Procedure, title, id, options, prefix + ["repo", "modules", "topic"], render, strip);
    DetectedDir(prefix);
  }
}
