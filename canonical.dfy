/** `toCanonicalDescription` of content.js: an ordered, first-match-wins list
    of case-insensitive substring tests that names the kind of document. */
module Canonical {
  import opened Wrappers
  import opened JsText

  /** One rule: when the lower-cased text contains any of `patterns`, the result is `result`. */
  datatype Rule = Rule(patterns: seq<string>, result: string)

  /** The rules, in the order `toCanonicalDescription` tries them. */
  const Rules: seq<Rule> := [
    Rule(["cover", "halaman judul"], "COVER"),
    Rule(["bab 1"], "BAB 1"),
    Rule(["bab 2"], "BAB 2"),
    Rule(["bab 3"], "BAB 3"),
    Rule(["bab 4"], "BAB 4"),
    Rule(["bab 5"], "BAB 5"),
    Rule(["daftar pustaka"], "DAFTAR PUSTAKA"),
    Rule(["lampiran"], "LAMPIRAN"),
    Rule(["bab"], "BAB XXX")
  ]

  /** Some pattern of the rule occurs in `l`. */
  predicate Fires(rule: Rule, l: string)
  {
    AnyOccurs(rule.patterns, l)
  }

  predicate AnyOccurs(patterns: seq<string>, l: string)
  {
    patterns != [] && (Contains(l, patterns[0]) || AnyOccurs(patterns[1..], l))
  }

  /** The index of the first rule that fires on `l`, if any. */
  function FirstFiring(rules: seq<Rule>, l: string): (k: Option<nat>)
    ensures k.Some? ==> k.value < |rules| && Fires(rules[k.value], l)
    ensures k.Some? ==> forall j :: 0 <= j < k.value ==> !Fires(rules[j], l)
    ensures k.None? ==> forall j :: 0 <= j < |rules| ==> !Fires(rules[j], l)
  {
    if rules == [] then
      None
    else if Fires(rules[0], l) then
      Some(0)
    else
      match FirstFiring(rules[1..], l)
      case Some(k) => Some(k + 1)
      case None => None
  }

  /** The decision list read as a table: the label of the first rule that fires
      on the lower-cased text, else the upper-cased text itself. */
  function Decide(s: string): string
  {
    match FirstFiring(Rules, Lower(s))
    case Some(k) => Rules[k].result
    case None => Upper(s)
  }

  /** The result of some rule of the table. */
  ghost predicate IsLabel(r: string)
  {
    exists k :: 0 <= k < |Rules| && Rules[k].result == r
  }

  lemma LabelsOfRules()
    ensures IsLabel("COVER") && IsLabel("BAB 1") && IsLabel("BAB 2") && IsLabel("BAB 3")
    ensures IsLabel("BAB 4") && IsLabel("BAB 5") && IsLabel("DAFTAR PUSTAKA")
    ensures IsLabel("LAMPIRAN") && IsLabel("BAB XXX")
  {
    assert Rules[0].result == "COVER" && Rules[1].result == "BAB 1" && Rules[2].result == "BAB 2";
    assert Rules[3].result == "BAB 3" && Rules[4].result == "BAB 4" && Rules[5].result == "BAB 5";
    assert Rules[6].result == "DAFTAR PUSTAKA" && Rules[7].result == "LAMPIRAN" && Rules[8].result == "BAB XXX";
  }

  /** `toCanonicalDescription(s)`, as its chain of `if` tests: the result is
      one of the rules' labels, or else the text upper-cased. */
  function CanonicalDescription(s: string): (r: string)
    ensures IsLabel(r) || r == Upper(s)
  {
    LabelsOfRules();
    var l := Lower(s);
    if Contains(l, "cover") || Contains(l, "halaman judul") then "COVER"
    else if Contains(l, "bab 1") then "BAB 1"
    else if Contains(l, "bab 2") then "BAB 2"
    else if Contains(l, "bab 3") then "BAB 3"
    else if Contains(l, "bab 4") then "BAB 4"
    else if Contains(l, "bab 5") then "BAB 5"
    else if Contains(l, "daftar pustaka") then "DAFTAR PUSTAKA"
    else if Contains(l, "lampiran") then "LAMPIRAN"
    else if Contains(l, "bab") then "BAB XXX"
    else Upper(s)
  }

  /** Which rule fires, spelled out per rule. */
  lemma FiresRules(l: string)
    ensures Fires(Rules[0], l) == (Contains(l, "cover") || Contains(l, "halaman judul"))
    ensures Fires(Rules[1], l) == Contains(l, "bab 1")
    ensures Fires(Rules[2], l) == Contains(l, "bab 2")
    ensures Fires(Rules[3], l) == Contains(l, "bab 3")
    ensures Fires(Rules[4], l) == Contains(l, "bab 4")
    ensures Fires(Rules[5], l) == Contains(l, "bab 5")
    ensures Fires(Rules[6], l) == Contains(l, "daftar pustaka")
    ensures Fires(Rules[7], l) == Contains(l, "lampiran")
    ensures Fires(Rules[8], l) == Contains(l, "bab")
  {
    AnyOccursPair("cover", "halaman judul", l);
    FiresSingle(l);
  }

  /** Every rule after the first has a single pattern. */
  lemma FiresSingle(l: string)
    ensures forall k :: 1 <= k < |Rules| ==> Fires(Rules[k], l) == Contains(l, Rules[k].patterns[0])
  {
    forall k | 1 <= k < |Rules| ensures Fires(Rules[k], l) == Contains(l, Rules[k].patterns[0]) {
      AnyOccursSingle(Rules[k].patterns[0], l);
    }
  }

  lemma AnyOccursSingle(p: string, l: string)
    ensures AnyOccurs([p], l) == Contains(l, p)
  {
    assert [p][1..] == [];
  }

  lemma AnyOccursPair(p: string, q: string, l: string)
    ensures AnyOccurs([p, q], l) == (Contains(l, p) || Contains(l, q))
  {
    assert [p, q][1..] == [q];
    AnyOccursSingle(q, l);
  }

  /** The chain of tests is the ordered rule table, first match wins. */
  lemma CanonicalIsDecisionList(s: string)
    ensures CanonicalDescription(s) == Decide(s)
  {
    match FirstFiring(Rules, Lower(s))
    case Some(k) => DecisionAt(s, k);
    case None => DecisionNone(s);
  }

  lemma DecisionAt(s: string, k: nat)
    requires FirstFiring(Rules, Lower(s)) == Some(k)
    ensures CanonicalDescription(s) == Rules[k].result
  {
    FiresRules(Lower(s));
    if k == 0 {
    } else if k <= 5 {
      assert !Fires(Rules[0], Lower(s));
    } else {
      assert !Fires(Rules[0], Lower(s)) && !Fires(Rules[1], Lower(s)) && !Fires(Rules[2], Lower(s));
      assert !Fires(Rules[3], Lower(s)) && !Fires(Rules[4], Lower(s)) && !Fires(Rules[5], Lower(s));
    }
  }

  lemma DecisionNone(s: string)
    requires FirstFiring(Rules, Lower(s)) == None
    ensures CanonicalDescription(s) == Upper(s)
  {
    FiresRules(Lower(s));
  }

  /** The rule that fires while none before it does is the one `FirstFiring` reports. */
  lemma FirstFiringIs(rules: seq<Rule>, l: string, k: nat)
    requires k < |rules| && Fires(rules[k], l)
    requires forall j :: 0 <= j < k ==> !Fires(rules[j], l)
    ensures FirstFiring(rules, l) == Some(k)
  {
  }

  lemma NoneFires(rules: seq<Rule>, l: string)
    requires forall j :: 0 <= j < |rules| ==> !Fires(rules[j], l)
    ensures FirstFiring(rules, l) == None
  {
  }

  /** Each rule's own result, lower-cased, makes that rule fire first. */
  lemma ResultFiresOwnRule(k: nat)
    requires k < |Rules|
    ensures FirstFiring(Rules, Lower(Rules[k].result)) == Some(k)
  {
    var l := Lower(Rules[k].result);
    LowerResult(k);
    if k == 0 {
      CoverFiresFirst(l);
    } else if k <= 5 {
      BabFiresFirst(l, k);
    } else if k == 6 {
      DaftarFiresFirst(l);
    } else if k == 7 {
      LampiranFiresFirst(l);
    } else {
      BareBabFiresFirst(l);
    }
    FirstFiringIs(Rules, l, k);
  }

  lemma LowerResult(k: nat)
    requires k < |Rules|
    ensures Lower(Rules[k].result) == if k == 0 then "cover" else if k == 6 then "daftar pustaka"
      else if k == 7 then "lampiran" else if k == 8 then "bab xxx" else Rules[k].patterns[0]
  {
    if k == 0 {
      LowerCover();
    } else if k <= 5 {
      LowerBab(k);
    } else if k == 6 {
      LowerDaftar();
    } else if k == 7 {
      LowerLampiran();
    } else {
      LowerBareBab();
    }
  }

  lemma LowerCover()
    ensures Lower("COVER") == "cover"
  {
  }

  lemma LowerBab(k: nat)
    requires 1 <= k <= 5
    ensures Lower(Rules[k].result) == Rules[k].patterns[0]
  {
  }

  lemma LowerDaftar()
    ensures Lower("DAFTAR PUSTAKA") == "daftar pustaka"
  {
  }

  lemma LowerLampiran()
    ensures Lower("LAMPIRAN") == "lampiran"
  {
  }

  lemma LowerBareBab()
    ensures Lower("BAB XXX") == "bab xxx"
  {
  }

  lemma CoverFiresFirst(l: string)
    requires l == "cover"
    ensures Fires(Rules[0], l)
  {
    assert OccursAt(l, "cover", 0);
    FiresRules(l);
  }

  lemma BabFiresFirst(l: string, k: nat)
    requires 1 <= k <= 5 && l == Rules[k].patterns[0]
    ensures Fires(Rules[k], l) && forall j :: 0 <= j < k ==> !Fires(Rules[j], l)
  {
    assert OccursAt(l, Rules[k].patterns[0], 0);
    Absent(l, "cover", 'c');
    Absent(l, "halaman judul", 'h');
    forall j | 1 <= j < k ensures !Contains(l, Rules[j].patterns[0]) {
      Absent(l, Rules[j].patterns[0], Rules[j].patterns[0][4]);
    }
    AnyOccursPair("cover", "halaman judul", l);
    FiresSingle(l);
  }

  /** No `bab k` pattern occurs in a text without a `b`. */
  lemma NoBab(l: string)
    requires 'b' !in l
    ensures forall j :: 1 <= j < 6 ==> !Contains(l, Rules[j].patterns[0])
  {
    forall j | 1 <= j < 6 ensures !Contains(l, Rules[j].patterns[0]) {
      Absent(l, Rules[j].patterns[0], 'b');
    }
  }

  lemma DaftarFiresFirst(l: string)
    requires l == "daftar pustaka"
    ensures Fires(Rules[6], l) && forall j :: 0 <= j < 6 ==> !Fires(Rules[j], l)
  {
    DaftarLetters(l);
    DaftarFires(l);
  }

  lemma DaftarLetters(l: string)
    requires l == "daftar pustaka"
    ensures 'c' !in l && 'h' !in l && 'b' !in l && Contains(l, "daftar pustaka")
  {
    assert OccursAt(l, "daftar pustaka", 0);
  }

  lemma DaftarFires(l: string)
    requires 'c' !in l && 'h' !in l && 'b' !in l && Contains(l, "daftar pustaka")
    ensures Fires(Rules[6], l) && forall j :: 0 <= j < 6 ==> !Fires(Rules[j], l)
  {
    Absent(l, "cover", 'c');
    Absent(l, "halaman judul", 'h');
    NoBab(l);
    AnyOccursPair("cover", "halaman judul", l);
    FiresSingle(l);
  }

  lemma LampiranFiresFirst(l: string)
    requires l == "lampiran"
    ensures Fires(Rules[7], l) && forall j :: 0 <= j < 7 ==> !Fires(Rules[j], l)
  {
    assert OccursAt(l, "lampiran", 0);
    assert 'c' !in l && 'h' !in l && 'b' !in l && 'd' !in l;
    LampiranFires(l);
  }

  lemma LampiranFires(l: string)
    requires 'c' !in l && 'h' !in l && 'b' !in l && 'd' !in l && Contains(l, "lampiran")
    ensures Fires(Rules[7], l) && forall j :: 0 <= j < 7 ==> !Fires(Rules[j], l)
  {
    Absent(l, "cover", 'c');
    Absent(l, "halaman judul", 'h');
    NoBab(l);
    Absent(l, "daftar pustaka", 'd');
    AnyOccursPair("cover", "halaman judul", l);
    FiresSingle(l);
  }

  lemma BareBabFiresFirst(l: string)
    requires l == "bab xxx"
    ensures Fires(Rules[8], l) && forall j :: 0 <= j < 8 ==> !Fires(Rules[j], l)
  {
    assert OccursAt(l, "bab", 0);
    assert 'c' !in l && 'h' !in l && 'd' !in l && 'l' !in l;
    assert '1' !in l && '2' !in l && '3' !in l && '4' !in l && '5' !in l;
    BareBabFires(l);
  }

  lemma BareBabFires(l: string)
    requires 'c' !in l && 'h' !in l && 'd' !in l && 'l' !in l && Contains(l, "bab")
    requires '1' !in l && '2' !in l && '3' !in l && '4' !in l && '5' !in l
    ensures Fires(Rules[8], l) && forall j :: 0 <= j < 8 ==> !Fires(Rules[j], l)
  {
    Absent(l, "cover", 'c');
    Absent(l, "halaman judul", 'h');
    forall j | 1 <= j < 6 ensures !Contains(l, Rules[j].patterns[0]) {
      Absent(l, Rules[j].patterns[0], Rules[j].patterns[0][4]);
    }
    Absent(l, "daftar pustaka", 'd');
    Absent(l, "lampiran", 'l');
    AnyOccursPair("cover", "halaman judul", l);
    FiresSingle(l);
  }

  lemma Absent(s: string, pat: string, c: char)
    requires c in pat && c !in s
    ensures !Contains(s, pat)
  {
    if Contains(s, pat) {
      ContainsChar(s, pat, c);
    }
  }

  /** First match wins: the result is that of the first rule that fires. */
  lemma FirstMatchWins(s: string, k: nat)
    requires k < |Rules| && Fires(Rules[k], Lower(s))
    requires forall j :: 0 <= j < k ==> !Fires(Rules[j], Lower(s))
    ensures CanonicalDescription(s) == Rules[k].result
  {
    FirstFiringIs(Rules, Lower(s), k);
    CanonicalIsDecisionList(s);
  }

  /** When no rule fires, the result is the text upper-cased, the same text up to case. */
  lemma NoRuleUpperCases(s: string)
    requires forall j :: 0 <= j < |Rules| ==> !Fires(Rules[j], Lower(s))
    ensures CanonicalDescription(s) == Upper(s)
    ensures |CanonicalDescription(s)| == |s| && Lower(CanonicalDescription(s)) == Lower(s)
  {
    NoneFires(Rules, Lower(s));
    CanonicalIsDecisionList(s);
    LowerOfUpper(s);
  }

  /** A result names its rule: the result is rule `k`'s exactly when rule `k`
      is the first to fire; an upper-cased fall-through never looks like a rule's result. */
  lemma ResultIff(s: string, k: nat)
    requires k < |Rules|
    ensures CanonicalDescription(s) == Rules[k].result <==> FirstFiring(Rules, Lower(s)) == Some(k)
  {
    CanonicalIsDecisionList(s);
    match FirstFiring(Rules, Lower(s))
    case Some(j) =>
      if j != k {
        ResultsDistinct(j, k);
      }
    case None =>
      if Upper(s) == Rules[k].result {
        LowerOfUpper(s);
        ResultFiresOwnRule(k);
        assert false;
      }
  }

  lemma ResultsDistinct(j: nat, k: nat)
    requires j < |Rules| && k < |Rules| && j != k
    ensures Rules[j].result != Rules[k].result
  {
    ResultFiresOwnRule(j);
    ResultFiresOwnRule(k);
  }

  /** `COVER` comes out exactly when the text contains `cover` or `halaman judul`,
      in any case, whatever else it contains. */
  lemma CoverIff(s: string)
    ensures CanonicalDescription(s) == "COVER" <==>
      Contains(Lower(s), "cover") || Contains(Lower(s), "halaman judul")
  {
    ResultIff(s, 0);
    FiresRules(Lower(s));
    if Fires(Rules[0], Lower(s)) {
      FirstFiringIs(Rules, Lower(s), 0);
    }
  }

  /** Substring matching makes chapter 10 read as chapter 1. */
  lemma BabTenIsBabOne(s: string)
    requires !Contains(Lower(s), "cover") && !Contains(Lower(s), "halaman judul")
    requires Contains(Lower(s), "bab 10")
    ensures CanonicalDescription(s) == "BAB 1"
  {
    assert "bab 1" + "0" == "bab 10";
    ContainsPrefix(Lower(s), "bab 1", "0");
  }

  /** `daftar pustaka` is tested before `lampiran`: a text with both, and with no
      cover or chapter pattern, is a bibliography. */
  lemma DaftarBeforeLampiran(s: string)
    requires !Contains(Lower(s), "cover") && !Contains(Lower(s), "halaman judul")
    requires !Contains(Lower(s), "bab 1") && !Contains(Lower(s), "bab 2") && !Contains(Lower(s), "bab 3")
    requires !Contains(Lower(s), "bab 4") && !Contains(Lower(s), "bab 5")
    requires Contains(Lower(s), "daftar pustaka")
    ensures CanonicalDescription(s) == "DAFTAR PUSTAKA"
  {
    FiresRules(Lower(s));
    FirstMatchWins(s, 6);
  }

  /** The cover rule sees `cover` inside longer words: a chapter on recovery is a cover. */
  lemma RecoveryIsCover(s: string)
    requires Contains(Lower(s), "recovery")
    ensures CanonicalDescription(s) == "COVER"
  {
    assert "re" + "cover" + "y" == "recovery";
    ContainsInner(Lower(s), "re", "cover", "y");
  }

  /** The upper-cased text of a rule-less description goes through unchanged a second time,
      and every rule's result maps to itself: the rules are idempotent. */
  lemma CanonicalIdempotent(s: string)
    ensures CanonicalDescription(CanonicalDescription(s)) == CanonicalDescription(s)
  {
    var r := CanonicalDescription(s);
    CanonicalIsDecisionList(s);
    CanonicalIsDecisionList(r);
    match FirstFiring(Rules, Lower(s))
    case Some(k) =>
      ResultFiresOwnRule(k);
    case None =>
      LowerOfUpper(s);
      UpperOfUpper(s);
  }
}
