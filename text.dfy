/** String operations the pipeline applies to cells, written with the exact semantics of
    the regular expressions and string methods the program calls. */
module Text {
  import opened Seqs

  /** `s` with every character of `bad` deleted: replacing the alternation of those
      single characters by the empty string. */
  function RemoveChars(s: string, bad: set<char>): (r: string)
    ensures forall c :: c in r ==> c in s && c !in bad
    ensures forall c :: c in s && c !in bad ==> c in r
    ensures SubseqOf(r, s)
    ensures forall c :: multiset(r)[c] == if c in bad then 0 else multiset(s)[c]
  {
    var keep := c => c !in bad;
    forall c ensures multiset(Filter(s, keep))[c] == if c in bad then 0 else multiset(s)[c] {
      FilterMultiset(s, keep, c);
    }
    Filter(s, keep)
  }

  /** `pat` occurs in `s` starting at position `i`. */
  predicate OccursAt(s: string, pat: string, i: nat)
  {
    i + |pat| <= |s| && s[i..i + |pat|] == pat
  }

  ghost predicate Contains(s: string, pat: string)
  {
    exists i: nat :: OccursAt(s, pat, i)
  }

  /** Replace the occurrences of `pat` in `s` by `rep`, scanning left to right and never
      rescanning replaced text (the semantics of both `str.replace` and `re.sub` with a
      literal pattern). */
  function ReplaceAll(s: string, pat: string, rep: string): (r: string)
    requires pat != []
    decreases |s|
  {
    if |s| < |pat| then s
    else if s[..|pat|] == pat then rep + ReplaceAll(s[|pat|..], pat, rep)
    else [s[0]] + ReplaceAll(s[1..], pat, rep)
  }

  /** A string in which the pattern does not occur is left unchanged. */
  lemma {:induction false} ReplaceAllAbsent(s: string, pat: string, rep: string)
    requires pat != [] && !Contains(s, pat)
    ensures ReplaceAll(s, pat, rep) == s
    decreases |s|
  {
    if |s| >= |pat| {
      assert !OccursAt(s, pat, 0);
      assert s[..|pat|] != pat;
      forall i: nat | OccursAt(s[1..], pat, i)
        ensures false
      {
        assert s[i + 1..i + 1 + |pat|] == s[1..][i..i + |pat|];
        assert OccursAt(s, pat, i + 1);
      }
      ReplaceAllAbsent(s[1..], pat, rep);
    }
  }

  /** A character that is neither in the input nor in the replacement is not in the output. */
  lemma {:induction false} ReplaceAllKeepsOut(s: string, pat: string, rep: string, c: char)
    requires pat != [] && c !in s && c !in rep
    ensures c !in ReplaceAll(s, pat, rep)
    decreases |s|
  {
    if |s| >= |pat| {
      if s[..|pat|] == pat {
        ReplaceAllKeepsOut(s[|pat|..], pat, rep, c);
      } else {
        ReplaceAllKeepsOut(s[1..], pat, rep, c);
      }
    }
  }

  /** Up to the first character of the replacement, the output is a copy of the input. */
  lemma {:induction false} ReplaceAllPrefix(u: string, pat: string, rep: string, k: nat)
    requires pat != [] && rep != []
    ensures var r := ReplaceAll(u, pat, rep);
      k <= |r| && rep[0] !in r[..k] ==> k <= |u| && u[..k] == r[..k]
    decreases |u|
  {
    var r := ReplaceAll(u, pat, rep);
    if |u| >= |pat| && k > 0 && k <= |r| {
      if u[..|pat|] == pat {
        assert r[..k][0] == rep[0];
      } else {
        var r' := ReplaceAll(u[1..], pat, rep);
        assert r == [u[0]] + r';
        assert r[..k] == [u[0]] + r'[..k - 1];
        assert r'[..k - 1] == r[..k][1..];
        ReplaceAllPrefix(u[1..], pat, rep, k - 1);
      }
    }
  }

  /** No occurrence of the pattern starts inside, or runs across, a leading replacement. */
  lemma NoOccurrenceAfterReplacement(rep: string, r': string, pat: string)
    requires pat != [] && pat[0] !in rep && !Contains(r', pat)
    ensures !Contains(rep + r', pat)
  {
    var r := rep + r';
    forall i: nat
      ensures !OccursAt(r, pat, i)
    {
      if i + |pat| <= |r| {
        if i < |rep| {
          assert r[i..i + |pat|][0] == rep[i];
        } else {
          assert r'[i - |rep|..i - |rep| + |pat|] == r[i..i + |pat|];
          assert !OccursAt(r', pat, i - |rep|);
        }
      }
    }
  }

  /** Copying a character that does not begin a match cannot begin an occurrence either. */
  lemma NoOccurrenceAtCopy(s: string, pat: string, rep: string)
    requires pat != [] && rep != [] && rep[0] !in pat
    requires |s| >= |pat| && s[..|pat|] != pat
    ensures !OccursAt([s[0]] + ReplaceAll(s[1..], pat, rep), pat, 0)
  {
    var r' := ReplaceAll(s[1..], pat, rep);
    var r := [s[0]] + r';
    var k := |pat| - 1;
    if |pat| <= |r| {
      assert r[..|pat|] == [s[0]] + r'[..k];
      if r'[..k] == pat[1..] {
        assert rep[0] !in r'[..k] by {
          forall x | x in pat[1..] ensures x in pat { }
        }
        ReplaceAllPrefix(s[1..], pat, rep, k);
        assert s[..|pat|] == [s[0]] + s[1..][..k];
        assert r[..|pat|] == s[..|pat|];
      } else {
        assert r[..|pat|][1..] == r'[..k];
        assert pat[1..] != r'[..k];
      }
    }
  }

  /** An occurrence in the output of an unmatched prefix is impossible when none follows. */
  lemma NoOccurrenceAfterCopy(s: string, pat: string, rep: string)
    requires pat != [] && rep != [] && rep[0] !in pat
    requires |s| >= |pat| && s[..|pat|] != pat
    requires !Contains(ReplaceAll(s[1..], pat, rep), pat)
    ensures !Contains(ReplaceAll(s, pat, rep), pat)
  {
    assert ReplaceAll(s, pat, rep) == [s[0]] + ReplaceAll(s[1..], pat, rep);
    NoOccurrenceAtCopy(s, pat, rep);
    NoLaterOccurrence(s[0], ReplaceAll(s[1..], pat, rep), pat);
  }

  /** Prepending one character adds at most an occurrence at position 0. */
  lemma NoLaterOccurrence(c: char, r': string, pat: string)
    requires !Contains(r', pat) && !OccursAt([c] + r', pat, 0)
    ensures !Contains([c] + r', pat)
  {
    var r := [c] + r';
    forall i: nat
      ensures !OccursAt(r, pat, i)
    {
      if i > 0 && i + |pat| <= |r| {
        assert r'[i - 1..i - 1 + |pat|] == r[i..i + |pat|];
        assert !OccursAt(r', pat, i - 1);
      }
    }
  }

  /** When the replacement cannot start or continue an occurrence of the pattern, no
      occurrence of the pattern is left in the output. */
  lemma {:induction false} ReplaceAllRemovesPattern(s: string, pat: string, rep: string)
    requires pat != [] && rep != []
    requires rep[0] !in pat && pat[0] !in rep
    ensures !Contains(ReplaceAll(s, pat, rep), pat)
    decreases |s|
  {
    if |s| < |pat| {
      forall i: nat | OccursAt(ReplaceAll(s, pat, rep), pat, i) ensures false { }
    } else if s[..|pat|] == pat {
      ReplaceAllRemovesPattern(s[|pat|..], pat, rep);
      NoOccurrenceAfterReplacement(rep, ReplaceAll(s[|pat|..], pat, rep), pat);
    } else {
      ReplaceAllRemovesPattern(s[1..], pat, rep);
      NoOccurrenceAfterCopy(s, pat, rep);
    }
  }

  /** Every occurrence of `rep[0]` in `r` is the start of a copy of `rep`. */
  predicate MarksStart(r: string, rep: string)
    requires rep != []
  {
    forall i :: 0 <= i < |r| && r[i] == rep[0] ==> i + |rep| <= |r| && r[i..i + |rep|] == rep
  }

  lemma MarksAfterReplacement(rep: string, r': string)
    requires rep != [] && rep[0] !in rep[1..] && MarksStart(r', rep)
    ensures MarksStart(rep + r', rep)
  {
    var r := rep + r';
    forall i | 0 <= i < |r| && r[i] == rep[0]
      ensures i + |rep| <= |r| && r[i..i + |rep|] == rep
    {
      if i >= |rep| {
        var j := i - |rep|;
        assert r[|rep|..] == r';
        assert r'[j] == r[i];
        assert j + |rep| <= |r'| && r'[j..j + |rep|] == rep;
        var w, w' := r[i..i + |rep|], r'[j..j + |rep|];
        forall m | 0 <= m < |rep| ensures w[m] == w'[m] {
          assert r[i + m] == r'[j + m];
        }
        assert w == w';
      }
    }
  }

  lemma MarksAfterCopy(c: char, r': string, rep: string)
    requires rep != [] && c != rep[0] && MarksStart(r', rep)
    ensures MarksStart([c] + r', rep)
  {
    var r := [c] + r';
    forall i | 0 <= i < |r| && r[i] == rep[0]
      ensures i + |rep| <= |r| && r[i..i + |rep|] == rep
    {
      var j := i - 1;
      assert r'[j] == r[i];
      assert j + |rep| <= |r'| && r'[j..j + |rep|] == rep;
      assert r'[j..j + |rep|] == r[i..i + |rep|];
    }
  }

  /** When the input does not contain the replacement's first character, every occurrence
      of that character in the output starts an inserted replacement. */
  lemma {:induction false} ReplaceAllMarks(s: string, pat: string, rep: string)
    requires pat != [] && rep != [] && rep[0] !in s && rep[0] !in rep[1..]
    ensures MarksStart(ReplaceAll(s, pat, rep), rep)
    decreases |s|
  {
    if |s| >= |pat| {
      if s[..|pat|] == pat {
        assert rep[0] !in s[|pat|..] by {
          forall c | c in s[|pat|..] ensures c in s { }
        }
        ReplaceAllMarks(s[|pat|..], pat, rep);
        MarksAfterReplacement(rep, ReplaceAll(s[|pat|..], pat, rep));
      } else {
        assert rep[0] !in s[1..] by {
          forall c | c in s[1..] ensures c in s { }
        }
        ReplaceAllMarks(s[1..], pat, rep);
        MarksAfterCopy(s[0], ReplaceAll(s[1..], pat, rep), rep);
      }
    }
  }

  /** Python's `sep.join(items)`. */
  function Join(items: seq<string>, sep: string): string
  {
    if items == [] then ""
    else if |items| == 1 then items[0]
    else items[0] + sep + Join(items[1..], sep)
  }

  /** A string seen as the sequence of its one-character strings, as `sep.join(s)` iterates it. */
  function Chars(s: string): seq<string>
  {
    seq(|s|, i requires 0 <= i < |s| => [s[i]])
  }

  /** Number of occurrences of `c` in `s` (`s.count(c)` for a one-character `c`). */
  function Occurrences(s: string, c: char): nat
  {
    if s == [] then 0 else (if s[0] == c then 1 else 0) + Occurrences(s[1..], c)
  }

  lemma {:induction false} OccurrencesAppend(a: string, b: string, c: char)
    ensures Occurrences(a + b, c) == Occurrences(a, c) + Occurrences(b, c)
  {
    if a == [] {
      assert a + b == b;
    } else {
      assert (a + b)[0] == a[0];
      assert (a + b)[1..] == a[1..] + b;
      OccurrencesAppend(a[1..], b, c);
    }
  }

  lemma {:induction false} OccurrencesAbsent(s: string, c: char)
    requires c !in s
    ensures Occurrences(s, c) == 0
  {
    if s != [] {
      assert c !in s[1..] by {
        forall x | x in s[1..] ensures x in s { }
      }
      OccurrencesAbsent(s[1..], c);
    }
  }

  /** Joining k >= 1 comma-free strings with ", " yields exactly k - 1 commas. */
  lemma {:induction false} JoinCommas(items: seq<string>)
    requires items != []
    requires forall k :: 0 <= k < |items| ==> ',' !in items[k]
    ensures Occurrences(Join(items, ", "), ',') + 1 == |items|
  {
    OccurrencesAbsent(items[0], ',');
    if |items| > 1 {
      JoinCommas(items[1..]);
      OccurrencesAppend(items[0] + ", ", Join(items[1..], ", "), ',');
      OccurrencesAppend(items[0], ", ", ',');
      assert Occurrences(", ", ',') == 1;
    }
  }

  /** Position of the first ')' or line break in `s`, or `|s|`: where a lazy `.*?` that
      started just before `s` either closes or gives up. */
  function CloseAt(s: string): (j: nat)
    ensures j <= |s|
    ensures forall k :: 0 <= k < j ==> s[k] != ')' && s[k] != '\n'
    ensures j < |s| ==> s[j] == ')' || s[j] == '\n'
  {
    if s == [] then 0
    else if s[0] == ')' || s[0] == '\n' then 0
    else 1 + CloseAt(s[1..])
  }

  /** Delete every match of the regular expression `\(.*?\)`: a '(' with the nearest
      following ')' on the same line, scanning left to right. */
  function StripGroups(s: string): string
    decreases |s|
  {
    if s == [] then []
    else if s[0] == '(' && CloseAt(s[1..]) < |s| - 1 && s[1 + CloseAt(s[1..])] == ')'
    then StripGroups(s[2 + CloseAt(s[1..])..])
    else [s[0]] + StripGroups(s[1..])
  }

  /** A string without '(' is left unchanged. */
  lemma {:induction false} StripGroupsNoParen(s: string)
    requires '(' !in s
    ensures StripGroups(s) == s
  {
    if s != [] {
      assert '(' !in s[1..] by {
        forall x | x in s[1..] ensures x in s { }
      }
      StripGroupsNoParen(s[1..]);
    }
  }

  /** Just after a '(', a lazy `.*?` closes at the first ')' when no line break precedes it. */
  lemma CloseAtGroup(b: string, c: string)
    requires ')' !in b && '\n' !in b
    ensures CloseAt(b + ")" + c) == |b|
  {
    var t := b + ")" + c;
    var j := CloseAt(t);
    assert t[|b|] == ')';
  }

  lemma StripGroupsAtGroup(b: string, c: string)
    requires ')' !in b && '\n' !in b
    ensures StripGroups("(" + b + ")" + c) == StripGroups(c)
  {
    var s := "(" + b + ")" + c;
    assert s[1..] == b + ")" + c;
    CloseAtGroup(b, c);
    assert s[1 + |b|] == ')';
    assert s[2 + |b|..] == c;
  }

  /** The first group is removed and the text before it is kept: with `a` free of '('
      and `b` free of ')' and line breaks, `a(b)c` becomes `a` followed by `c` stripped. */
  lemma {:induction false} StripGroupsFirst(a: string, b: string, c: string)
    requires '(' !in a && ')' !in b && '\n' !in b
    ensures StripGroups(a + "(" + b + ")" + c) == a + StripGroups(c)
  {
    if a == [] {
      assert a + "(" + b + ")" + c == "(" + b + ")" + c;
      StripGroupsAtGroup(b, c);
    } else {
      var s := a + "(" + b + ")" + c;
      assert s[0] == a[0];
      assert s[1..] == a[1..] + "(" + b + ")" + c;
      assert '(' !in a[1..] by {
        forall x | x in a[1..] ensures x in a { }
      }
      StripGroupsFirst(a[1..], b, c);
      assert s[0] != '(';
      assert StripGroups(s) == [s[0]] + StripGroups(s[1..]);
      assert a == [a[0]] + a[1..];
    }
  }
}
