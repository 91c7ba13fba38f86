/** Facts about one `gsub!` pass that hold for every rule: text in which no
    match starts is copied through verbatim, and composition of passes. */
module GsubFacts {
  import opened Strings
  import opened Rewrite

  /** No match of `r` starts at any of the first `n` positions of `s`. */
  ghost predicate NoMatchBefore(r: Rule, s: string, n: nat)
    requires n <= |s|
  {
    forall i :: 0 <= i < n ==> MatchAt(r, s[i..]).None?
  }

  /** A match at the head of the text is replaced and the scan resumes after it. */
  lemma GsubAtMatch(r: Rule, t: string, m: Match)
    requires MatchAt(r, t) == Some(m)
    ensures Gsub(r, t) == m.replacement + Gsub(r, t[m.len..])
  {
  }

  /** A text that starts with `a` and continues with a match. */
  lemma GsubAfterLeadFree(r: Rule, a: string, t: string, m: Match)
    requires forall k :: 0 <= k < |a| ==> a[k] !in Leads(r)
    requires MatchAt(r, t) == Some(m)
    ensures Gsub(r, a + t) == a + m.replacement + Gsub(r, t[m.len..])
  {
    LeadFreeCopied(r, a, t);
  }

  /** Where no match starts, one character is copied and the scan moves on. */
  lemma GsubNoMatch(r: Rule, s: string)
    requires s != [] && MatchAt(r, s).None?
    ensures Gsub(r, s) == [s[0]] + Gsub(r, s[1..])
  {
  }

  /** A stretch in which no match starts is copied unchanged, and the scan
      resumes right after it. */
  lemma {:induction false} UnmatchedPrefixCopied(r: Rule, a: string, b: string)
    requires NoMatchBefore(r, a + b, |a|)
    ensures Gsub(r, a + b) == a + Gsub(r, b)
    decreases |a|
  {
    if a != [] {
      var s := a + b;
      assert s[0..] == s;
      GsubNoMatch(r, s);
      assert s[1..] == a[1..] + b;
      forall i | 0 <= i < |a| - 1
        ensures MatchAt(r, (a[1..] + b)[i..]).None?
      {
        assert (a[1..] + b)[i..] == s[i + 1..];
      }
      UnmatchedPrefixCopied(r, a[1..], b);
      var rest := Gsub(r, b);
      assert Gsub(r, s) == [a[0]] + (a[1..] + rest);
      ConsAppend(a, rest);
    } else {
      assert a + b == b;
      assert a + Gsub(r, b) == Gsub(r, b);
    }
  }

  lemma ConsAppend(a: string, rest: string)
    requires a != []
    ensures [a[0]] + (a[1..] + rest) == a + rest
  {
    assert a == [a[0]] + a[1..];
  }

  /** Text none of whose characters can start a match of `r` is copied unchanged. */
  lemma LeadFreeCopied(r: Rule, a: string, b: string)
    requires forall k :: 0 <= k < |a| ==> a[k] !in Leads(r)
    ensures Gsub(r, a + b) == a + Gsub(r, b)
  {
    forall i | 0 <= i < |a|
      ensures MatchAt(r, (a + b)[i..]).None?
    {
      assert (a + b)[i..][0] == a[i];
    }
    UnmatchedPrefixCopied(r, a, b);
  }

  /** In particular a pass over such a text changes nothing. */
  lemma LeadFreeUnchanged(r: Rule, a: string)
    requires forall k :: 0 <= k < |a| ==> a[k] !in Leads(r)
    ensures Gsub(r, a) == a
  {
    LeadFreeCopied(r, a, []);
    assert a + [] == a;
  }

  /** Running a list of rules and then one more is running the extended list. */
  lemma {:induction false} ApplyAllSnoc(rules: seq<Rule>, r: Rule, s: string)
    ensures ApplyAll(rules + [r], s) == Gsub(r, ApplyAll(rules, s))
    decreases |rules|
  {
    if rules == [] {
      assert [] + [r] == [r];
    } else {
      assert (rules + [r])[1..] == rules[1..] + [r];
      ApplyAllSnoc(rules[1..], r, Gsub(rules[0], s));
    }
  }

  /** Running four rules and then the rest is running the rest on the result
      of the four, applied one after the other. */
  lemma ApplyAllFour(r1: Rule, r2: Rule, r3: Rule, r4: Rule, rest: seq<Rule>, s: string)
    ensures ApplyAll([r1, r2, r3, r4] + rest, s) == ApplyAll(rest, Gsub(r4, Gsub(r3, Gsub(r2, Gsub(r1, s)))))
  {
    var s1 := Gsub(r1, s);
    var s2 := Gsub(r2, s1);
    var s3 := Gsub(r3, s2);
    assert [r1, r2, r3, r4] + rest == [r1] + ([r2] + ([r3] + ([r4] + rest)));
    ApplyAllCons(r1, [r2] + ([r3] + ([r4] + rest)), s);
    ApplyAllCons(r2, [r3] + ([r4] + rest), s1);
    ApplyAllCons(r3, [r4] + rest, s2);
    ApplyAllCons(r4, rest, s3);
  }

  /** Running a rule and then the rest is running the rest on its result. */
  lemma ApplyAllCons(r: Rule, rest: seq<Rule>, s: string)
    ensures ApplyAll([r] + rest, s) == ApplyAll(rest, Gsub(r, s))
  {
    assert ([r] + rest)[1..] == rest;
  }

  /** A character that is absent from the text and that no rule adds is
      absent after every rule has run. */
  lemma {:induction false} ApplyAllKeepsAbsent(rules: seq<Rule>, s: string, c: char)
    requires c !in s
    requires forall k :: 0 <= k < |rules| ==> c !in Constants(rules[k])
    ensures c !in ApplyAll(rules, s)
    decreases |rules|
  {
    if rules != [] {
      ApplyAllKeepsAbsent(rules[1..], Gsub(rules[0], s), c);
    }
  }
}
