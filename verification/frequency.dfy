/** Letter frequency analysis of app.py (`frequency_analysis`): upper-case
    the text, drop the spaces, count every alphabetic character in a
    dictionary that remembers insertion order, then sort the entries by
    count, highest first, keeping ties in the order they were inserted. */
module Frequency {
  import opened Alphabet

  /** One `(letter, count)` item of the returned dictionary. */
  datatype Entry = Entry(letter: char, count: nat)

  /** A Python dictionary from characters to counts: the keys in insertion
      order and the mapping itself. */
  datatype Tally = Tally(order: seq<char>, counts: map<char, nat>)

  /** Every key is listed once and the listed keys are the mapped ones. */
  predicate Valid(t: Tally)
  {
    && (forall i, j :: 0 <= i < j < |t.order| ==> t.order[i] != t.order[j])
    && (forall c :: c in t.counts <==> c in t.order)
  }

  /** Occurrences of `c` in `s`. */
  function Count(s: string, c: char): (n: nat)
    ensures n <= |s|
    ensures n > 0 <==> c in s
  {
    if |s| == 0 then 0
    else
      var p := s[..|s| - 1];
      assert forall x :: x in s <==> x in p || x == s[|s| - 1];
      Count(p, c) + (if s[|s| - 1] == c then 1 else 0)
  }

  /** Number of alphabetic characters of `s`. */
  function LetterCount(s: string): (n: nat)
    ensures n <= |s|
    ensures n == 0 <==> forall i :: 0 <= i < |s| ==> !IsAlpha(s[i])
  {
    if |s| == 0 then 0
    else
      var p := s[..|s| - 1];
      var n := LetterCount(p);
      assert forall i :: 0 <= i < |p| ==> s[i] == p[i];
      n + (if IsAlpha(s[|s| - 1]) then 1 else 0)
  }

  /** `s.replace(" ", "")`. */
  function RemoveSpaces(s: string): (r: string)
    ensures |r| <= |s|
    ensures forall c :: c in r <==> c in s && c != ' '
    ensures multiset(r) == multiset(s)[' ' := 0]
  {
    if |s| == 0 then []
    else
      var p := s[..|s| - 1];
      assert s == p + [s[|s| - 1]];
      assert forall x :: x in s <==> x in p || x == s[|s| - 1];
      RemoveSpaces(p) + (if s[|s| - 1] == ' ' then [] else [s[|s| - 1]])
  }

  /** Removing spaces works piece by piece, so the characters that stay
      keep their relative order. */
  lemma {:induction false} RemoveSpacesConcat(s: string, t: string)
    ensures RemoveSpaces(s + t) == RemoveSpaces(s) + RemoveSpaces(t)
    decreases |t|
  {
    if |t| == 0 {
      assert s + t == s;
    } else {
      var q, c := t[..|t| - 1], t[|t| - 1];
      assert t == q + [c];
      assert (s + t)[..|s + t| - 1] == s + q;
      RemoveSpacesConcat(s, q);
    }
  }

  /** Position of the first `c` in `s`, or `|s|` when there is none. */
  function FirstIndex(s: string, c: char): (i: nat)
    ensures i <= |s|
    ensures i < |s| <==> c in s
    ensures i < |s| ==> s[i] == c
    ensures forall j :: 0 <= j < i ==> s[j] != c
  {
    if |s| == 0 then 0
    else if s[0] == c then 0
    else 1 + FirstIndex(s[1..], c)
  }

  lemma FirstIndexAt(s: string, c: char, i: nat)
    requires i < |s| && s[i] == c
    requires forall j :: 0 <= j < i ==> s[j] != c
    ensures FirstIndex(s, c) == i
  {
  }

  /** Appending a character moves no earlier first occurrence, and a new
      character is first seen at the end. */
  lemma FirstIndexAppend(p: string, c: char, x: char)
    ensures x in p ==> FirstIndex(p + [c], x) == FirstIndex(p, x)
    ensures x !in p && x == c ==> FirstIndex(p + [c], x) == |p|
  {
    var s := p + [c];
    if x in p {
      var i := FirstIndex(p, x);
      FirstIndexAt(s, x, i);
    } else if x == c {
      FirstIndexAt(s, x, |p|);
    }
  }

  /** `freq.get(c, 0)`. */
  function Get(counts: map<char, nat>, c: char): nat
  {
    if c in counts then counts[c] else 0
  }

  /** `freq[c] = freq.get(c, 0) + 1`: the count of `c` goes up by one, a new
      key goes to the end of the insertion order, nothing else changes. */
  function Record(t: Tally, c: char): (r: Tally)
    ensures Valid(t) ==> Valid(r)
    ensures Get(r.counts, c) == Get(t.counts, c) + 1
    ensures forall x :: x != c ==> Get(r.counts, x) == Get(t.counts, x)
    ensures forall x :: x in r.counts <==> x in t.counts || x == c
    ensures c in t.counts ==> r.order == t.order
    ensures c !in t.counts ==> r.order == t.order + [c]
  {
    var order := if c in t.counts then t.order else t.order + [c];
    Tally(order, t.counts[c := Get(t.counts, c) + 1])
  }

  /** The body of `for char in text`: letters are recorded, everything
      else is skipped. */
  function Step(t: Tally, c: char): (r: Tally)
    ensures Valid(t) ==> Valid(r)
    ensures forall x :: Get(r.counts, x) == Get(t.counts, x) + (if x == c && IsAlpha(c) then 1 else 0)
  {
    if IsAlpha(c) then Record(t, c) else t
  }

  /** The counting loop `for char in text: if char.isalpha(): ...`, one
      character at a time from the left. */
  function CountLetters(s: string): (t: Tally)
    ensures Valid(t)
    ensures forall c :: c in t.counts <==> c in s && IsAlpha(c)
    ensures forall c :: Get(t.counts, c) == if IsAlpha(c) then Count(s, c) else 0
    ensures forall i, j :: 0 <= i < j < |t.order| ==> FirstIndex(s, t.order[i]) < FirstIndex(s, t.order[j])
  {
    if |s| == 0 then Tally([], map[])
    else
      var p, c := s[..|s| - 1], s[|s| - 1];
      assert s == p + [c];
      var t := CountLetters(p);
      StepKeys(p, c, t);
      StepCounts(p, c, t);
      StepOrder(p, c, t);
      Step(t, c)
  }

  lemma StepKeys(p: string, c: char, t: Tally)
    requires forall x :: x in t.counts <==> x in p && IsAlpha(x)
    ensures forall x :: x in Step(t, c).counts <==> x in p + [c] && IsAlpha(x)
  {
    assert forall x :: x in p + [c] <==> x in p || x == c;
  }

  lemma StepCounts(p: string, c: char, t: Tally)
    requires forall x :: Get(t.counts, x) == if IsAlpha(x) then Count(p, x) else 0
    ensures forall x :: Get(Step(t, c).counts, x) == if IsAlpha(x) then Count(p + [c], x) else 0
  {
    assert (p + [c])[..|p|] == p;
  }

  lemma StepOrder(p: string, c: char, t: Tally)
    requires Valid(t)
    requires forall x :: x in t.counts <==> x in p && IsAlpha(x)
    requires forall i, j :: 0 <= i < j < |t.order| ==> FirstIndex(p, t.order[i]) < FirstIndex(p, t.order[j])
    ensures forall i, j :: 0 <= i < j < |Step(t, c).order| ==>
              FirstIndex(p + [c], Step(t, c).order[i]) < FirstIndex(p + [c], Step(t, c).order[j])
  {
    var s, o := p + [c], t.order;
    KeysKeepFirstIndex(p, c, t);
    assert forall i, j :: 0 <= i < j < |o| ==> FirstIndex(s, o[i]) < FirstIndex(s, o[j]);
    if IsAlpha(c) && c !in t.counts {
      FirstIndexAppend(p, c, c);
      assert Step(t, c).order == o + [c];
      AppendLatest(s, o, c);
    } else {
      assert Step(t, c).order == o;
    }
  }

  /** A character first seen after all listed ones may be listed last. */
  lemma AppendLatest(s: string, o: seq<char>, c: char)
    requires forall i, j :: 0 <= i < j < |o| ==> FirstIndex(s, o[i]) < FirstIndex(s, o[j])
    requires forall i :: 0 <= i < |o| ==> FirstIndex(s, o[i]) < FirstIndex(s, c)
    ensures forall i, j :: 0 <= i < j < |o + [c]| ==> FirstIndex(s, (o + [c])[i]) < FirstIndex(s, (o + [c])[j])
  {
    var o' := o + [c];
    forall i, j | 0 <= i < j < |o'|
      ensures FirstIndex(s, o'[i]) < FirstIndex(s, o'[j])
    {
      assert o'[i] == o[i];
      if j < |o| {
        assert o'[j] == o[j];
      }
    }
  }

  /** The keys counted so far keep their first occurrence when a character
      is appended, and it lies before that character. */
  lemma KeysKeepFirstIndex(p: string, c: char, t: Tally)
    requires Valid(t)
    requires forall x :: x in t.counts <==> x in p && IsAlpha(x)
    ensures forall i :: 0 <= i < |t.order| ==> FirstIndex(p + [c], t.order[i]) == FirstIndex(p, t.order[i]) < |p|
  {
    forall i | 0 <= i < |t.order|
      ensures FirstIndex(p + [c], t.order[i]) == FirstIndex(p, t.order[i]) < |p|
    {
      assert t.order[i] in t.counts;
      FirstIndexAppend(p, c, t.order[i]);
    }
  }

  /** The entries of a dictionary in insertion order, `freq.items()`. */
  function Items(t: Tally): (es: seq<Entry>)
    ensures |es| == |t.order|
    ensures forall i :: 0 <= i < |es| ==> es[i].letter == t.order[i]
    ensures Valid(t) ==> forall e :: e in es <==> e.letter in t.counts && e.count == t.counts[e.letter]
  {
    var es := seq(|t.order|, i requires 0 <= i < |t.order| => Entry(t.order[i], Get(t.counts, t.order[i])));
    ItemsAreEntries(t, es);
    es
  }

  lemma ItemsAreEntries(t: Tally, es: seq<Entry>)
    requires |es| == |t.order|
    requires forall i :: 0 <= i < |es| ==> es[i] == Entry(t.order[i], Get(t.counts, t.order[i]))
    ensures Valid(t) ==> forall e :: e in es <==> e.letter in t.counts && e.count == t.counts[e.letter]
  {
    if Valid(t) {
      forall e: Entry | e.letter in t.counts && e.count == t.counts[e.letter]
        ensures e in es
      {
        var i :| 0 <= i < |t.order| && t.order[i] == e.letter;
        assert es[i] == e;
      }
    }
  }

  /** `sum(freq.values())`. */
  function Sum(es: seq<Entry>): nat
  {
    if |es| == 0 then 0 else Sum(es[..|es| - 1]) + es[|es| - 1].count
  }

  lemma {:induction false} SumAppend(es: seq<Entry>, e: Entry)
    ensures Sum(es + [e]) == Sum(es) + e.count
  {
    assert (es + [e])[..|es|] == es;
  }

  lemma {:induction false} SumUpdate(es: seq<Entry>, k: nat, e: Entry)
    requires k < |es|
    ensures Sum(es[k := e]) + es[k].count == Sum(es) + e.count
  {
    var n := |es| - 1;
    var u := es[k := e];
    if k == n {
      assert u[..n] == es[..n];
    } else {
      SumUpdate(es[..n], k, e);
      assert u[..n] == es[..n][k := e];
    }
  }

  /** Recording a letter adds one to the total. */
  lemma SumRecord(t: Tally, c: char)
    requires Valid(t)
    ensures Sum(Items(Record(t, c))) == Sum(Items(t)) + 1
  {
    if c in t.counts {
      var k :| 0 <= k < |t.order| && t.order[k] == c;
      var e := Entry(c, Get(t.counts, c) + 1);
      ItemsOfKnownKey(t, c, k);
      SumUpdate(Items(t), k, e);
    } else {
      ItemsOfNewKey(t, c);
      SumAppend(Items(t), Entry(c, 1));
    }
  }

  lemma ItemsOfKnownKey(t: Tally, c: char, k: nat)
    requires Valid(t) && k < |t.order| && t.order[k] == c
    ensures Items(Record(t, c)) == Items(t)[k := Entry(c, Get(t.counts, c) + 1)]
  {
    var r := Record(t, c);
    assert r.order == t.order;
    var lhs, rhs := Items(r), Items(t)[k := Entry(c, Get(t.counts, c) + 1)];
    forall i | 0 <= i < |lhs|
      ensures lhs[i] == rhs[i]
    {
      if i != k {
        assert t.order[i] != c;
      }
    }
  }

  lemma ItemsOfNewKey(t: Tally, c: char)
    requires Valid(t) && c !in t.counts
    ensures Items(Record(t, c)) == Items(t) + [Entry(c, 1)]
  {
    var r := Record(t, c);
    assert r.order == t.order + [c];
    var lhs, rhs := Items(r), Items(t) + [Entry(c, 1)];
    forall i | 0 <= i < |lhs|
      ensures lhs[i] == rhs[i]
    {
      if i < |t.order| {
        assert t.order[i] in t.counts;
      }
    }
  }

  /** The counts add up to the number of letters. */
  lemma {:induction false} CountLettersSum(s: string)
    ensures Sum(Items(CountLetters(s))) == LetterCount(s)
  {
    if |s| > 0 {
      var p, c := s[..|s| - 1], s[|s| - 1];
      CountLettersSum(p);
      if IsAlpha(c) {
        SumRecord(CountLetters(p), c);
      }
    }
  }

  /** Dropping the spaces first changes nothing, since a space is not a
      letter. */
  lemma {:induction false} RemoveSpacesIrrelevant(s: string)
    ensures CountLetters(RemoveSpaces(s)) == CountLetters(s)
  {
    if |s| > 0 {
      var p, c := s[..|s| - 1], s[|s| - 1];
      RemoveSpacesIrrelevant(p);
      var q := RemoveSpaces(p);
      assert CountLetters(s) == Step(CountLetters(p), c);
      if c == ' ' {
        assert !IsAlpha(c);
        assert RemoveSpaces(s) == q + [];
        assert q + [] == q;
      } else {
        assert RemoveSpaces(s) == q + [c];
        assert (q + [c])[..|q|] == q;
        assert CountLetters(q + [c]) == Step(CountLetters(q), c);
      }
    }
  }

  /** Counts never increase from left to right. */
  predicate NonIncreasing(es: seq<Entry>)
  {
    forall i, j :: 0 <= i < j < |es| ==> es[i].count >= es[j].count
  }

  /** Entries with equal counts appear in order of first occurrence in `s`. */
  predicate TiesByFirstSeen(s: string, es: seq<Entry>)
  {
    forall i, j :: 0 <= i < j < |es| && es[i].count == es[j].count ==>
      FirstIndex(s, es[i].letter) < FirstIndex(s, es[j].letter)
  }

  /** Insert `e` into a list sorted by count, before the first entry whose
      count is not larger: the place a stable descending sort gives an
      entry that came before all of `es`. */
  function Insert(e: Entry, es: seq<Entry>): (r: seq<Entry>)
    requires NonIncreasing(es)
    ensures NonIncreasing(r)
    ensures multiset(r) == multiset(es) + multiset{e}
  {
    if |es| == 0 then
      [e]
    else if es[0].count <= e.count then
      PrependKeepsOrder(e, es);
      [e] + es
    else
      var rest := Insert(e, es[1..]);
      InsertBehind(e, es, rest);
      [es[0]] + rest
  }

  /** The recursive case of `Insert`: `e` goes behind the head of `es`. */
  lemma InsertBehind(e: Entry, es: seq<Entry>, rest: seq<Entry>)
    requires NonIncreasing(es) && |es| > 0 && es[0].count > e.count
    requires NonIncreasing(rest) && multiset(rest) == multiset(es[1..]) + multiset{e}
    ensures NonIncreasing([es[0]] + rest)
    ensures multiset([es[0]] + rest) == multiset(es) + multiset{e}
  {
    assert es == [es[0]] + es[1..];
    assert multiset(es) == multiset{es[0]} + multiset(es[1..]);
    assert multiset([es[0]] + rest) == multiset{es[0]} + multiset(rest);
    InsertedFrom(e, es[1..], rest);
    PrependKeepsOrder(es[0], rest);
  }

  /** Inserting an entry adds its count to the total. */
  lemma {:induction false} InsertSum(e: Entry, es: seq<Entry>)
    requires NonIncreasing(es)
    ensures Sum(Insert(e, es)) == Sum(es) + e.count
  {
    if |es| == 0 {
      SumPrepend(e, []);
    } else if es[0].count <= e.count {
      SumPrepend(e, es);
    } else {
      var rest := Insert(e, es[1..]);
      assert es == [es[0]] + es[1..];
      InsertSum(e, es[1..]);
      SumPrepend(es[0], rest);
      SumPrepend(es[0], es[1..]);
    }
  }

  /** Every entry of `r` comes from `es` or is `e`. */
  lemma InsertedFrom(e: Entry, es: seq<Entry>, r: seq<Entry>)
    requires multiset(r) == multiset(es) + multiset{e}
    ensures forall x :: x in r ==> x in es || x == e
  {
    forall x | x in r
      ensures x in es || x == e
    {
      assert x in multiset(r);
    }
  }

  lemma PrependKeepsOrder(x: Entry, es: seq<Entry>)
    requires NonIncreasing(es)
    requires forall y :: y in es ==> x.count >= y.count
    ensures NonIncreasing([x] + es)
  {
    var r := [x] + es;
    forall i, j | 0 <= i < j < |r|
      ensures r[i].count >= r[j].count
    {
      assert r[j] == es[j - 1];
      if i > 0 {
        assert r[i] == es[i - 1];
      }
    }
  }

  lemma {:induction false} SumPrepend(e: Entry, es: seq<Entry>)
    ensures Sum([e] + es) == e.count + Sum(es)
  {
    if |es| > 0 {
      var n := |es| - 1;
      SumPrepend(e, es[..n]);
      assert ([e] + es)[..n + 1] == [e] + es[..n];
    }
  }

  /** `sorted(freq.items(), key=lambda x: x[1], reverse=True)`, written as
      an insertion sort. */
  function SortByCount(es: seq<Entry>): (r: seq<Entry>)
    ensures NonIncreasing(r)
    ensures multiset(r) == multiset(es)
    ensures Sum(r) == Sum(es)
  {
    if |es| == 0 then []
    else
      assert es == [es[0]] + es[1..];
      SumPrepend(es[0], es[1..]);
      InsertSum(es[0], SortByCount(es[1..]));
      Insert(es[0], SortByCount(es[1..]))
  }

  /** Inserting an entry seen before all others keeps ties in first-seen
      order. */
  lemma {:induction false} InsertKeepsTies(s: string, e: Entry, es: seq<Entry>)
    requires NonIncreasing(es) && TiesByFirstSeen(s, es)
    requires forall x :: x in es ==> FirstIndex(s, e.letter) < FirstIndex(s, x.letter)
    ensures TiesByFirstSeen(s, Insert(e, es))
  {
    if |es| == 0 {
    } else if es[0].count <= e.count {
      assert Insert(e, es) == [e] + es;
      PrependKeepsTies(s, e, es);
    } else {
      var rest := Insert(e, es[1..]);
      assert Insert(e, es) == [es[0]] + rest;
      SuffixKeepsOrder(s, es);
      InsertKeepsTies(s, e, es[1..]);
      InsertedFrom(e, es[1..], rest);
      forall x | x in rest && x.count == es[0].count
        ensures FirstIndex(s, es[0].letter) < FirstIndex(s, x.letter)
      {
        var k :| 0 <= k < |es[1..]| && es[1..][k] == x;
        assert es[k + 1] == x;
      }
      PrependKeepsTies(s, es[0], rest);
    }
  }

  lemma SuffixKeepsOrder(s: string, es: seq<Entry>)
    requires |es| > 0
    requires NonIncreasing(es) && TiesByFirstSeen(s, es)
    ensures NonIncreasing(es[1..]) && TiesByFirstSeen(s, es[1..])
    ensures forall x :: x in es[1..] ==> x in es
  {
  }

  lemma PrependKeepsTies(s: string, x: Entry, es: seq<Entry>)
    requires TiesByFirstSeen(s, es)
    requires forall y :: y in es && y.count == x.count ==> FirstIndex(s, x.letter) < FirstIndex(s, y.letter)
    ensures TiesByFirstSeen(s, [x] + es)
  {
    var r := [x] + es;
    forall i, j | 0 <= i < j < |r| && r[i].count == r[j].count
      ensures FirstIndex(s, r[i].letter) < FirstIndex(s, r[j].letter)
    {
      assert r[j] == es[j - 1];
      if i > 0 {
        assert r[i] == es[i - 1];
      }
    }
  }

  /** The sort is stable: entries listed in first-seen order keep that order
      among equal counts. */
  lemma {:induction false} SortKeepsTies(s: string, es: seq<Entry>)
    requires forall i, j :: 0 <= i < j < |es| ==> FirstIndex(s, es[i].letter) < FirstIndex(s, es[j].letter)
    ensures TiesByFirstSeen(s, SortByCount(es))
  {
    if |es| > 0 {
      var tail := SortByCount(es[1..]);
      SortKeepsTies(s, es[1..]);
      forall x | x in tail
        ensures FirstIndex(s, es[0].letter) < FirstIndex(s, x.letter)
      {
        assert x in multiset(es[1..]);
        var k :| 0 <= k < |es[1..]| && es[1..][k] == x;
        assert es[k + 1] == x;
      }
      InsertKeepsTies(s, es[0], tail);
    }
  }

  /** `frequency_analysis(text)`: every entry is an upper-case letter of the
      upper-cased text with its number of occurrences, every such letter has
      an entry and only one, the counts add up to the number of letters, and
      the entries come highest count first, ties in order of first
      appearance. */
  function FrequencyAnalysis(text: string): (r: seq<Entry>)
    ensures forall i :: 0 <= i < |r| ==>
              IsUpperLetter(r[i].letter) && r[i].count == Count(UpperText(text), r[i].letter) > 0
    ensures forall c :: IsUpperLetter(c) && c in UpperText(text) ==> exists i :: 0 <= i < |r| && r[i].letter == c
    ensures forall i, j :: 0 <= i < j < |r| ==> r[i].letter != r[j].letter
    ensures Sum(r) == LetterCount(UpperText(text))
    ensures NonIncreasing(r)
    ensures TiesByFirstSeen(UpperText(text), r)
  {
    var u := UpperText(text);
    var t := CountLetters(RemoveSpaces(u));
    RemoveSpacesIrrelevant(u);
    CountLettersSum(u);
    var r := SortByCount(Items(t));
    SortKeepsTies(u, Items(t));
    EntriesAccurate(u, t, r);
    EntriesComplete(u, t, r);
    EntriesDistinct(u, r);
    r
  }

  /** Each sorted entry is an upper-case letter of `u` with its count. */
  lemma EntriesAccurate(u: string, t: Tally, r: seq<Entry>)
    requires forall i :: 0 <= i < |u| ==> !IsLowerLetter(u[i])
    requires Valid(t)
    requires forall c :: c in t.counts <==> c in u && IsAlpha(c)
    requires forall c :: Get(t.counts, c) == if IsAlpha(c) then Count(u, c) else 0
    requires multiset(r) == multiset(Items(t))
    ensures forall i :: 0 <= i < |r| ==> IsUpperLetter(r[i].letter) && r[i].count == Count(u, r[i].letter) > 0
  {
    var items := Items(t);
    forall i | 0 <= i < |r|
      ensures IsUpperLetter(r[i].letter) && r[i].count == Count(u, r[i].letter) > 0
    {
      assert r[i] in multiset(items);
      var k :| 0 <= k < |items| && items[k] == r[i];
      var c := t.order[k];
      assert r[i] == Entry(c, Get(t.counts, c));
      assert c in u && IsAlpha(c);
      LetterOfUpperText(u, c);
    }
  }

  lemma LetterOfUpperText(u: string, c: char)
    requires forall i :: 0 <= i < |u| ==> !IsLowerLetter(u[i])
    requires c in u && IsAlpha(c)
    ensures IsUpperLetter(c)
  {
    var m :| 0 <= m < |u| && u[m] == c;
    assert !IsLowerLetter(c);
  }

  /** Every upper-case letter of `u` has a sorted entry. */
  lemma EntriesComplete(u: string, t: Tally, r: seq<Entry>)
    requires Valid(t)
    requires forall c :: c in t.counts <==> c in u && IsAlpha(c)
    requires multiset(r) == multiset(Items(t))
    ensures forall c :: IsUpperLetter(c) && c in u ==> exists i :: 0 <= i < |r| && r[i].letter == c
  {
    var items := Items(t);
    forall c | IsUpperLetter(c) && c in u
      ensures exists i :: 0 <= i < |r| && r[i].letter == c
    {
      assert IsAlpha(c);
      var k :| 0 <= k < |t.order| && t.order[k] == c;
      assert items[k] in multiset(r);
      var i :| 0 <= i < |r| && r[i] == items[k];
    }
  }

  /** No letter has two sorted entries: equal letters would have equal
      counts, and ties are strictly ordered. */
  lemma EntriesDistinct(u: string, r: seq<Entry>)
    requires forall i :: 0 <= i < |r| ==> r[i].count == Count(u, r[i].letter)
    requires TiesByFirstSeen(u, r)
    ensures forall i, j :: 0 <= i < j < |r| ==> r[i].letter != r[j].letter
  {
  }
}
