/** Selecting tests by their tags. */
module TagFilter {
  import opened SortedLists

  // ---------- Comma-separated lists ----------

  function FirstComma(s: string): (k: nat)
    ensures k <= |s| && ',' !in s[..k] && (k < |s| ==> s[k] == ',')
  {
    if s == "" || s[0] == ',' then 0
    else
      var k := 1 + FirstComma(s[1..]);
      assert s[..k] == [s[0]] + s[1..][..k - 1];
      k
  }

  /** How the shell reads a comma-separated line: an empty field after the last comma is dropped. */
  function Split(s: string): (fields: seq<string>)
    ensures forall f :: f in fields ==> ',' !in f
    decreases |s|
  {
    if s == "" then []
    else
      var k := FirstComma(s);
      if k == |s| then [s[..k]] else [s[..k]] + Split(s[k + 1..])
  }

  function Join(fields: seq<string>): string {
    if fields == [] then ""
    else if |fields| == 1 then fields[0]
    else fields[0] + "," + Join(fields[1..])
  }

  lemma {:induction false} FirstCommaOfJoin(a: string, rest: string)
    requires ',' !in a
    ensures FirstComma(a + "," + rest) == |a|
  {
    if a != "" {
      assert (a + "," + rest)[1..] == a[1..] + "," + rest;
      FirstCommaOfJoin(a[1..], rest);
    }
  }

  function DropEmptyLast(fields: seq<string>): seq<string>
    requires fields != []
  {
    if fields[|fields| - 1] == "" then fields[..|fields| - 1] else fields
  }

  lemma SplitOneMore(a: string, rest: string)
    requires ',' !in a
    ensures Split(a + "," + rest) == [a] + Split(rest)
  {
    var s := a + "," + rest;
    FirstCommaOfJoin(a, rest);
    assert s[..|a|] == a && s[|a| + 1..] == rest;
  }

  lemma SplitLast(last: string)
    requires ',' !in last
    ensures Split(last) == if last == "" then [] else [last]
  {
    assert FirstComma(last) == |last|;
    assert last[..|last|] == last;
  }

  lemma DropAfterFirst(a: string, rest: seq<string>)
    requires rest != []
    ensures DropEmptyLast([a] + rest) == [a] + DropEmptyLast(rest)
  {
  }

  ghost predicate CommaFree(fields: seq<string>) {
    forall f :: f in fields ==> ',' !in f
  }

  /** Splitting undoes joining, up to an empty last field. */
  lemma {:induction false} SplitJoin(fields: seq<string>)
    requires fields != [] && CommaFree(fields)
    ensures Split(Join(fields)) == DropEmptyLast(fields)
    decreases |fields|
  {
    if |fields| == 1 {
      SplitLast(fields[0]);
    } else {
      var a, rest := fields[0], fields[1..];
      SplitJoin(rest);
      SplitOneMore(a, Join(rest));
      DropAfterFirst(a, rest);
      assert fields == [a] + rest;
    }
  }

  lemma JoinOneMore(a: string, rest: seq<string>)
    ensures Join([a] + rest) == if rest == [] then a else a + "," + Join(rest)
  {
    assert ([a] + rest)[1..] == rest;
  }

  function DropLastComma(s: string): string {
    if s != "" && s[|s| - 1] == ',' then s[..|s| - 1] else s
  }

  lemma DropAfterComma(a: string, rest: string)
    ensures DropLastComma(a + "," + rest) == if rest == "" then a else a + "," + DropLastComma(rest)
  {
    var s := a + "," + rest;
    if rest == "" {
      assert s[|s| - 1] == ',' && s[..|s| - 1] == a;
    } else {
      assert s[|s| - 1] == rest[|rest| - 1];
      assert s[..|s| - 1] == a + "," + rest[..|rest| - 1];
    }
  }

  lemma JoinSplitOneMore(a: string, rest: string)
    requires ',' !in a && Join(Split(rest)) == DropLastComma(rest)
    ensures Join(Split(a + "," + rest)) == DropLastComma(a + "," + rest)
  {
    SplitOneMore(a, rest);
    JoinOneMore(a, Split(rest));
    DropAfterComma(a, rest);
  }

  lemma JoinSplitLast(s: string)
    requires ',' !in s
    ensures Join(Split(s)) == DropLastComma(s)
  {
    SplitLast(s);
    assert s != "" ==> s[|s| - 1] in s;
  }

  /** Joining undoes splitting, up to a comma at the end. */
  lemma {:induction false} JoinSplit(s: string)
    ensures Join(Split(s)) == DropLastComma(s)
    decreases |s|
  {
    var k := FirstComma(s);
    if k < |s| {
      assert s == s[..k] + "," + s[k + 1..];
      JoinSplit(s[k + 1..]);
      JoinSplitOneMore(s[..k], s[k + 1..]);
    } else {
      assert s[..k] == s;
      JoinSplitLast(s);
    }
  }

  predicate IsSpace(c: char) {
    c == ' ' || '\t' <= c <= '\r'
  }

  function Trim(s: string): (t: string)
    ensures t != "" ==> !IsSpace(t[0]) && !IsSpace(t[|t| - 1])
    ensures ',' in t ==> ',' in s
    decreases |s|
  {
    if s == "" then ""
    else if IsSpace(s[0]) then Trim(s[1..])
    else if IsSpace(s[|s| - 1]) then Trim(s[..|s| - 1])
    else s
  }

  /** A space, or one of the codes from tab to carriage return. */
  ghost predicate OnlyBlanks(s: string) {
    forall c :: c in s ==> c as int in {9, 10, 11, 12, 13, 32}
  }

  ghost predicate NoBlankEnds(s: string) {
    s != "" ==> !OnlyBlanks(s[..1]) && !OnlyBlanks(s[|s| - 1..])
  }

  lemma BlankEnds(s: string)
    requires NoBlankEnds(s)
    ensures s != "" ==> !IsSpace(s[0]) && !IsSpace(s[|s| - 1])
  {
  }

  /** Trimming takes away all blanks around a text, and nothing of the text. */
  lemma {:induction false} TrimIsExact(before: string, core: string, after: string)
    requires OnlyBlanks(before) && OnlyBlanks(after) && NoBlankEnds(core)
    ensures Trim(before + core + after) == core
    decreases |before| + |after|
  {
    var s := before + core + after;
    BlankEnds(core);
    if before != "" {
      assert s[0] == before[0] && s[1..] == before[1..] + core + after;
      assert before[0] in before && forall c :: c in before[1..] ==> c in before;
      TrimIsExact(before[1..], core, after);
    } else if core == "" {
      assert s == after;
      TrimOnlyBlanks(s);
    } else if after != "" {
      var n := |after| - 1;
      assert s[0] == core[0] && s[|s| - 1] == after[n] && after[n] in after;
      assert s[..|s| - 1] == before + core + after[..n];
      assert forall c :: c in after[..n] ==> c in after;
      TrimIsExact(before, core, after[..n]);
    } else {
      assert s == core;
    }
  }

  lemma {:induction false} TrimOnlyBlanks(s: string)
    requires OnlyBlanks(s)
    ensures Trim(s) == ""
  {
    if s != "" {
      assert s[0] in s && forall c :: c in s[1..] ==> c in s;
      TrimOnlyBlanks(s[1..]);
    }
  }

  // ---------- Reading a filter ----------

  function TrimAll(fields: seq<string>): (r: seq<string>)
    ensures |r| == |fields| && forall i :: 0 <= i < |r| ==> r[i] == Trim(fields[i])
  {
    seq(|fields|, i requires 0 <= i < |fields| => Trim(fields[i]))
  }

  /** The terms of a filter as the user wrote it. */
  function Terms(filter: string): seq<string> {
    TrimAll(Split(filter))
  }

  /** `text` is what is kept of a filter: its terms, sorted and joined again. */
  ghost predicate IsKept(filter: string, text: string) {
    exists terms :: Sorted(terms) && multiset(terms) == multiset(Terms(filter)) && text == Join(terms)
  }

  method ReadTags(filter: string) returns (text: string)
    ensures IsKept(filter, text)
  {
    var fields := Split(filter);
    var terms := [];
    for i := 0 to |fields|
      invariant terms == TrimAll(fields[..i])
    {
      terms := terms + [Trim(fields[i])];
    }
    assert fields[..|fields|] == fields;
    var sorted := Sort(terms);
    text := Join(sorted);
    assert terms == Terms(filter);
  }

  /** A field between blanks. */
  ghost predicate IsPadded(field: string, core: string) {
    exists before, after ::
      OnlyBlanks(before) && OnlyBlanks(after) && NoBlankEnds(core) && field == before + core + after
  }

  /** What is kept of a filter whose fields are written with blanks around them: the fields without the blanks. */
  lemma PaddingIsDropped(fields: seq<string>, cores: seq<string>, text: string)
    requires |fields| == |cores| > 0 && CommaFree(fields) && fields[|fields| - 1] != ""
    requires forall i :: 0 <= i < |fields| ==> IsPadded(fields[i], cores[i])
    ensures Terms(Join(fields)) == cores
    ensures IsKept(Join(fields), text) <==>
              exists terms :: Sorted(terms) && multiset(terms) == multiset(cores) && text == Join(terms)
  {
    SplitJoin(fields);
    forall i | 0 <= i < |fields|
      ensures Trim(fields[i]) == cores[i]
    {
      var before, after :|
        OnlyBlanks(before) && OnlyBlanks(after) && NoBlankEnds(cores[i]) && fields[i] == before + cores[i] + after;
      TrimIsExact(before, cores[i], after);
    }
  }

  // ---------- The decision ----------

  predicate IsNegated(term: string) {
    term != "" && term[0] == '!'
  }

  function Negatee(term: string): string
    requires IsNegated(term)
  {
    Trim(term[1..])
  }

  /** A negated term names the tag behind its mark, blanks around the tag aside. */
  lemma NegatedTag(term: string, tag: string)
    requires term != "" && term[0] == '!' && IsPadded(term[1..], tag)
    ensures IsNegated(term) && Negatee(term) == tag
  {
    var before, after :|
      OnlyBlanks(before) && OnlyBlanks(after) && NoBlankEnds(tag) && term[1..] == before + tag + after;
    TrimIsExact(before, tag, after);
  }

  function Positives(terms: seq<string>): (p: seq<string>)
    ensures forall t :: t in p <==> t in terms && !IsNegated(t)
  {
    if terms == [] then []
    else
      var n := |terms| - 1;
      assert terms == terms[..n] + [terms[n]];
      Positives(terms[..n]) + if IsNegated(terms[n]) then [] else [terms[n]]
  }

  function Negatives(terms: seq<string>): (p: seq<string>)
    ensures forall t :: t in p <==> exists u :: u in terms && IsNegated(u) && Negatee(u) == t
  {
    if terms == [] then []
    else
      var n := |terms| - 1;
      assert terms == terms[..n] + [terms[n]];
      Negatives(terms[..n]) + if IsNegated(terms[n]) then [Negatee(terms[n])] else []
  }

  /** What the code decides for one kept filter. */
  predicate Accepts(tags: seq<string>, text: string) {
    if text == "" then tags == []
    else
      var terms := Split(text);
      && Sorted(Positives(terms)) && (forall t :: t in Positives(terms) ==> t in tags)
      && !FindsRecord(tags, Negatives(terms))
  }

  /** Tell plain terms from negated ones. */
  method Partition(terms: seq<string>) returns (positive: seq<string>, negative: seq<string>)
    ensures positive == Positives(terms) && negative == Negatives(terms)
  {
    positive, negative := [], [];
    for j := 0 to |terms|
      invariant positive == Positives(terms[..j]) && negative == Negatives(terms[..j])
    {
      assert terms[..j + 1][..j] == terms[..j];
      if IsNegated(terms[j]) {
        negative := negative + [Negatee(terms[j])];
      } else {
        positive := positive + [terms[j]];
      }
    }
    assert terms[..|terms|] == terms;
  }

  method Judge(tags: seq<string>, text: string) returns (accepted: bool)
    requires Sorted(tags)
    ensures accepted <==> Accepts(tags, text)
  {
    if text == "" {
      return |tags| == 0;
    }
    var positive, negative := Partition(Split(text));
    accepted := AllIn(tags, positive);
    if accepted {
      var any := AnyIn(tags, negative);
      accepted := !any;
    }
  }

  method ShouldSkip(tags: seq<string>, filters: seq<string>) returns (skip: bool)
    requires Sorted(tags)
    ensures skip <==> filters != [] && forall f :: f in filters ==> !Accepts(tags, f)
  {
    if |filters| == 0 {
      return false;
    }
    for i := 0 to |filters|
      invariant forall k :: 0 <= k < i ==> !Accepts(tags, filters[k])
    {
      var accepted := Judge(tags, filters[i]);
      if accepted {
        assert filters[i] in filters;
        return false;
      }
    }
    AllTurnedAway(tags, filters);
    skip := true;
  }

  lemma AllTurnedAway(tags: seq<string>, filters: seq<string>)
    requires forall k :: 0 <= k < |filters| ==> !Accepts(tags, filters[k])
    ensures forall f :: f in filters ==> !Accepts(tags, f)
  {
  }

  // ---------- The documented meaning ----------

  /** No terms, or a single empty one. */
  predicate IsBlank(terms: seq<string>) {
    terms == [] || terms == [""]
  }

  /** A test has all the tags asked for and none of the negated ones. */
  predicate Meets(tags: seq<string>, terms: seq<string>) {
    forall t :: t in terms ==> if IsNegated(t) then Negatee(t) !in tags else t in tags
  }

  /** A filter is a conjunction of its terms; an empty filter selects untagged tests. */
  predicate Selects(tags: seq<string>, terms: seq<string>) {
    if IsBlank(terms) then tags == [] else Meets(tags, terms)
  }

  lemma {:induction false} PositivesSorted(terms: seq<string>)
    requires Sorted(terms)
    ensures Sorted(Positives(terms))
  {
    if terms != [] {
      var n := |terms| - 1;
      PositivesSorted(terms[..n]);
      forall t | t in Positives(terms[..n])
        ensures !Less(terms[n], t)
      {
        var k :| 0 <= k < n && terms[k] == t;
      }
    }
  }

  /** Every negation mark stands directly before its tag. */
  predicate Tight(terms: seq<string>) {
    forall t :: t in terms && IsNegated(t) ==> Negatee(t) == t[1..]
  }

  lemma SameMembers(a: seq<string>, b: seq<string>)
    requires multiset(a) == multiset(b)
    ensures |a| == |b| && forall t :: t in a <==> t in b
  {
    assert forall t :: t in a <==> t in multiset(a);
    assert forall t :: t in b <==> t in multiset(b);
    assert |a| == |multiset(a)| && |b| == |multiset(b)|;
  }

  lemma TermsAreCommaFree(filter: string)
    ensures CommaFree(Terms(filter))
  {
    forall t | t in Terms(filter)
      ensures ',' !in t
    {
      var i :| 0 <= i < |Terms(filter)| && Terms(filter)[i] == t;
      assert Split(filter)[i] in Split(filter);
    }
  }

  /** What is dropped from a sorted list of several terms is one of several empty terms. */
  lemma DropKeepsMembers(terms: seq<string>)
    requires Sorted(terms) && !IsBlank(terms)
    ensures Sorted(DropEmptyLast(terms)) && forall t :: t in DropEmptyLast(terms) <==> t in terms
  {
    var n := |terms| - 1;
    if terms[n] == "" {
      LessIsTotal(terms[n], terms[0]);
      assert terms[0] == "" && terms[0] == terms[..n][0];
      assert terms == terms[..n] + [terms[n]];
    }
  }

  lemma SameBlank(a: seq<string>, b: seq<string>)
    requires multiset(a) == multiset(b)
    ensures IsBlank(a) <==> IsBlank(b)
  {
    SameMembers(a, b);
    assert |a| == 1 ==> a[0] in a && b[0] in b;
  }

  lemma SplitKept(terms: seq<string>)
    requires Sorted(terms) && !IsBlank(terms) && CommaFree(terms)
    ensures Join(terms) != ""
    ensures Sorted(Split(Join(terms))) && forall t :: t in Split(Join(terms)) <==> t in terms
  {
    SplitJoin(terms);
    DropKeepsMembers(terms);
    assert terms[0] in terms && terms[0] in DropEmptyLast(terms);
  }

  /** The terms that the decision works with are those of the filter, as a set. */
  lemma KeptTerms(filter: string, terms: seq<string>)
    requires Sorted(terms) && multiset(terms) == multiset(Terms(filter))
    ensures IsBlank(terms) <==> IsBlank(Terms(filter))
    ensures Join(terms) == "" <==> IsBlank(terms)
    ensures !IsBlank(terms) ==>
      Sorted(Split(Join(terms))) && forall t :: t in Split(Join(terms)) <==> t in Terms(filter)
  {
    SameBlank(terms, Terms(filter));
    if !IsBlank(terms) {
      SameMembers(terms, Terms(filter));
      TermsAreCommaFree(filter);
      SplitKept(terms);
    }
  }

  // ---------- Which filters decide as documented ----------

  /** No term that sorts before `u` negates a larger tag, so that the search still finds the tag that `u` negates. */
  predicate IsSeen(terms: seq<string>, u: string) {
    && u in terms && IsNegated(u)
    && forall w :: w in terms && IsNegated(w) && Less(w, u) ==> !Less(Negatee(u), Negatee(w))
  }

  /** Some term that is seen negates one of the tags. */
  ghost predicate FindsSeen(tags: seq<string>, terms: seq<string>) {
    exists u :: IsSeen(terms, u) && Negatee(u) in tags
  }

  /** Every negated tag is negated by a term that is seen, or a term that is seen negates a tag that is asked for as
      well, in which case nothing can match. */
  ghost predicate IsReliable(terms: seq<string>) {
    (forall n :: n in Negatives(terms) ==> FindsSeen([n], terms)) || FindsSeen(Positives(terms), terms)
  }

  lemma FindsSeenGrows(some: seq<string>, tags: seq<string>, terms: seq<string>)
    requires FindsSeen(some, terms) && forall t :: t in some ==> t in tags
    ensures FindsSeen(tags, terms)
  {
    var u :| IsSeen(terms, u) && Negatee(u) in some;
    assert Negatee(u) in tags;
  }

  /** Adding a term that sorts last changes nothing about the terms before it. */
  lemma SeenBefore(terms: seq<string>, x: string, u: string)
    requires Sorted(terms + [x]) && u in terms
    ensures IsSeen(terms + [x], u) <==> IsSeen(terms, u)
  {
    var k :| 0 <= k < |terms| && terms[k] == u;
    assert !Less((terms + [x])[|terms|], (terms + [x])[k]);
  }

  lemma SeenLast(terms: seq<string>, x: string)
    requires Sorted(terms + [x]) && IsNegated(x)
    ensures IsSeen(terms + [x], x) <==> forall n :: n in Negatives(terms) ==> !Less(Negatee(x), n)
  {
    LessIsTotal(x, x);
    LessIsTotal(Negatee(x), Negatee(x));
    assert forall w :: w in terms + [x] <==> w in terms || w == x;
    forall w | w in terms && IsNegated(w) && !Less(w, x)
      ensures w == x
    {
      var k :| 0 <= k < |terms| && terms[k] == w;
      assert !Less((terms + [x])[|terms|], (terms + [x])[k]);
      LessIsTotal(w, x);
    }
    assert forall w :: w in terms && IsNegated(w) ==> Negatee(w) in Negatives(terms);
  }

  /** A record among the values looked for, one value later. */
  lemma RecordsOneMore(tags: seq<string>, needles: seq<string>, n: string)
    ensures FindsRecord(tags, needles + [n]) <==>
      FindsRecord(tags, needles) || (n in tags && forall m :: m in needles ==> !Less(n, m))
  {
    var more := needles + [n];
    assert forall j :: 0 <= j < |needles| ==> more[j] == needles[j];
    forall k | 0 <= k < |needles|
      ensures IsRecord(more, k) <==> IsRecord(needles, k)
    {
    }
    if IsRecord(more, |needles|) {
      forall m | m in needles
        ensures !Less(n, m)
      {
        var j :| 0 <= j < |needles| && needles[j] == m;
        assert !Less(more[|needles|], more[j]);
      }
    }
    if FindsRecord(tags, needles) {
      var k :| 0 <= k < |needles| && IsRecord(needles, k) && needles[k] in tags;
      assert IsRecord(more, k) && more[k] in tags;
    }
    if n in tags && forall m :: m in needles ==> !Less(n, m) {
      assert IsRecord(more, |needles|) && more[|needles|] in tags;
    }
  }

  /** What the forward-only search finds, said about the terms. */
  lemma {:induction false} RecordsAreSeen(tags: seq<string>, terms: seq<string>)
    requires Sorted(terms)
    ensures FindsRecord(tags, Negatives(terms)) <==> FindsSeen(tags, terms)
  {
    if terms != [] {
      var n := |terms| - 1;
      var init, x := terms[..n], terms[n];
      assert terms == init + [x];
      RecordsAreSeen(tags, init);
      forall u | u in init
        ensures IsSeen(terms, u) <==> IsSeen(init, u)
      {
        SeenBefore(init, x, u);
      }
      FindsSeenByLast(tags, init, x);
      if IsNegated(x) {
        SeenLast(init, x);
        RecordsOneMore(tags, Negatives(init), Negatee(x));
        assert Negatives(terms) == Negatives(init) + [Negatee(x)];
      } else {
        assert Negatives(terms) == Negatives(init);
      }
    }
  }

  lemma FindsSeenByLast(tags: seq<string>, init: seq<string>, x: string)
    requires forall u :: u in init ==> (IsSeen(init + [x], u) <==> IsSeen(init, u))
    ensures FindsSeen(tags, init + [x]) <==>
      FindsSeen(tags, init) || (IsSeen(init + [x], x) && Negatee(x) in tags)
  {
    if FindsSeen(tags, init) {
      var u :| IsSeen(init, u) && Negatee(u) in tags;
      assert IsSeen(init + [x], u);
    }
    if FindsSeen(tags, init + [x]) && !(IsSeen(init + [x], x) && Negatee(x) in tags) {
      var u :| IsSeen(init + [x], u) && Negatee(u) in tags;
      assert IsSeen(init, u);
    }
  }

  lemma MeetsByParts(tags: seq<string>, terms: seq<string>)
    ensures Meets(tags, terms) <==>
      (forall t :: t in Positives(terms) ==> t in tags) && (forall t :: t in Negatives(terms) ==> t !in tags)
  {
    var p, n := Positives(terms), Negatives(terms);
    if (forall t :: t in p ==> t in tags) && (forall t :: t in n ==> t !in tags) {
      forall t | t in terms
        ensures if IsNegated(t) then Negatee(t) !in tags else t in tags
      {
        if IsNegated(t) {
          assert Negatee(t) in n;
        } else {
          assert t in p;
        }
      }
    }
  }

  lemma SeenIsNegated(tags: seq<string>, terms: seq<string>)
    ensures FindsSeen(tags, terms) ==> exists t :: t in Negatives(terms) && t in tags
  {
    if FindsSeen(tags, terms) {
      var u :| IsSeen(terms, u) && Negatee(u) in tags;
      assert Negatee(u) in Negatives(terms);
    }
  }

  /** What is selected is always accepted; what is accepted is selected too when the terms are reliable. */
  lemma AcceptsTerms(tags: seq<string>, text: string)
    requires text != "" && Sorted(Split(text))
    ensures Accepts(tags, text) <==>
      (forall t :: t in Positives(Split(text)) ==> t in tags) && !FindsSeen(tags, Split(text))
    ensures Meets(tags, Split(text)) ==> Accepts(tags, text)
    ensures IsReliable(Split(text)) ==> (Accepts(tags, text) <==> Meets(tags, Split(text)))
  {
    var terms := Split(text);
    PositivesSorted(terms);
    MeetsByParts(tags, terms);
    RecordsAreSeen(tags, terms);
    SeenIsNegated(tags, terms);
    if IsReliable(terms) && Accepts(tags, text) {
      ReliableFindsAll(tags, terms);
    }
  }

  lemma ReliableFindsAll(tags: seq<string>, terms: seq<string>)
    requires IsReliable(terms) && !FindsSeen(tags, terms)
    requires forall t :: t in Positives(terms) ==> t in tags
    ensures forall n :: n in Negatives(terms) ==> n !in tags
  {
    if FindsSeen(Positives(terms), terms) {
      FindsSeenGrows(Positives(terms), tags, terms);
    }
    forall n | n in Negatives(terms) && FindsSeen([n], terms)
      ensures n !in tags
    {
      if n in tags {
        FindsSeenGrows([n], tags, terms);
      }
    }
  }

  lemma InsertSorted(s: seq<string>, x: string) returns (r: seq<string>)
    requires Sorted(s)
    ensures Sorted(r) && forall t :: t in r <==> t in s || t == x
  {
    var i := FirstFrom(s, x);
    forall k | i <= k < |s|
      ensures !Less(s[k], x)
    {
      if i < k {
        NotLessChains(x, s[i], s[k]);
      }
    }
    InsertedIsSorted(s, x, i);
    r := s[..i] + [x] + s[i..];
    assert s == s[..i] + s[i..];
  }

  /** Unreliable terms accept some test that has a negated tag: the one with exactly the tags asked for and a negated
      tag that no term in sight negates. */
  lemma UnreliableMisjudges(text: string) returns (tags: seq<string>)
    requires text != "" && Sorted(Split(text)) && !IsReliable(Split(text))
    ensures Sorted(tags) && Accepts(tags, text) && !Meets(tags, Split(text))
  {
    var terms := Split(text);
    var n :| n in Negatives(terms) && !FindsSeen([n], terms);
    PositivesSorted(terms);
    tags := InsertSorted(Positives(terms), n);
    FindsSeenByParts(Positives(terms), n, tags, terms);
    AcceptsTerms(tags, text);
    MeetsByParts(tags, terms);
  }

  lemma FindsSeenByParts(some: seq<string>, n: string, tags: seq<string>, terms: seq<string>)
    requires forall t :: t in tags <==> t in some || t == n
    ensures FindsSeen(tags, terms) <==> FindsSeen(some, terms) || FindsSeen([n], terms)
  {
    if FindsSeen(tags, terms) {
      var u :| IsSeen(terms, u) && Negatee(u) in tags;
      assert Negatee(u) in some || Negatee(u) in [n];
    }
    if FindsSeen(some, terms) {
      FindsSeenGrows(some, tags, terms);
    }
    if FindsSeen([n], terms) {
      FindsSeenGrows([n], tags, terms);
    }
  }

  lemma ReliableByMembers(a: seq<string>, b: seq<string>)
    requires forall t :: t in a <==> t in b
    ensures IsReliable(a) <==> IsReliable(b)
  {
    assert forall u :: IsSeen(a, u) <==> IsSeen(b, u);
    assert forall n :: n in Negatives(a) <==> n in Negatives(b);
    assert forall n :: FindsSeen([n], a) <==> FindsSeen([n], b);
    assert forall t :: t in Positives(a) <==> t in Positives(b);
    assert FindsSeen(Positives(a), a) <==> FindsSeen(Positives(b), b);
  }

  lemma TightIsReliable(terms: seq<string>)
    requires Tight(terms)
    ensures IsReliable(terms)
  {
    forall n | n in Negatives(terms)
      ensures FindsSeen([n], terms)
    {
      var t :| t in terms && IsNegated(t) && Negatee(t) == n;
      forall w | w in terms && IsNegated(w) && Less(w, t)
        ensures !Less(Negatee(t), Negatee(w))
      {
        LessIsTotal(w[1..], t[1..]);
      }
      assert IsSeen(terms, t) && Negatee(t) in [n];
    }
  }

  lemma BlankIsReliable(terms: seq<string>)
    requires IsBlank(terms)
    ensures IsReliable(terms)
  {
  }

  /** One filter as the user wrote it: the code decides about every test as documented exactly when the filter's terms
      are reliable. They are when every negation mark stands directly before its tag. Whatever the terms, no test that
      the filter selects is turned away. */
  lemma FilterMeansItsTerms(filter: string, text: string)
    requires IsKept(filter, text)
    ensures (forall tags :: Sorted(tags) ==> (Accepts(tags, text) <==> Selects(tags, Terms(filter)))) <==>
            IsReliable(Terms(filter))
    ensures Tight(Terms(filter)) ==> IsReliable(Terms(filter))
    ensures forall tags :: Selects(tags, Terms(filter)) ==> Accepts(tags, text)
  {
    var terms :| Sorted(terms) && multiset(terms) == multiset(Terms(filter)) && text == Join(terms);
    KeptTerms(filter, terms);
    if Tight(Terms(filter)) {
      TightIsReliable(Terms(filter));
    }
    if IsBlank(terms) {
      BlankIsReliable(Terms(filter));
    } else {
      JudgesByMembers(text, Terms(filter));
    }
  }

  lemma JudgesByMembers(text: string, terms: seq<string>)
    requires text != "" && Sorted(Split(text)) && !IsBlank(terms) && forall t :: t in Split(text) <==> t in terms
    ensures (forall tags :: Sorted(tags) ==> (Accepts(tags, text) <==> Selects(tags, terms))) <==> IsReliable(terms)
    ensures forall tags :: Selects(tags, terms) ==> Accepts(tags, text)
  {
    ReliableByMembers(Split(text), terms);
    forall tags
      ensures Selects(tags, terms) ==> Accepts(tags, text)
      ensures IsReliable(terms) ==> (Accepts(tags, text) <==> Selects(tags, terms))
    {
      AcceptsTerms(tags, text);
    }
    if !IsReliable(terms) {
      var tags := UnreliableMisjudges(text);
      assert !Selects(tags, terms);
    }
  }

  /** All filters together: a test that is skipped is selected by none, and with reliable filters a test is skipped
      exactly when filters are given and none of them selects it. */
  lemma SkipsUnselected(tags: seq<string>, filters: seq<string>, texts: seq<string>)
    requires Sorted(tags) && |texts| == |filters|
    requires forall i :: 0 <= i < |filters| ==> IsKept(filters[i], texts[i])
    ensures var skipped := texts != [] && forall t :: t in texts ==> !Accepts(tags, t);
      var unselected := filters != [] && forall f :: f in filters ==> !Selects(tags, Terms(f));
      && (skipped ==> unselected)
      && ((forall f :: f in filters ==> IsReliable(Terms(f))) ==> (skipped <==> unselected))
  {
    forall i | 0 <= i < |filters|
      ensures Selects(tags, Terms(filters[i])) ==> Accepts(tags, texts[i])
      ensures IsReliable(Terms(filters[i])) ==> (Accepts(tags, texts[i]) <==> Selects(tags, Terms(filters[i])))
      ensures texts[i] in texts && filters[i] in filters
    {
      FilterMeansItsTerms(filters[i], texts[i]);
    }
  }

  lemma LooseFilter() returns (filter: string, terms: seq<string>)
    ensures filter == "! b,!a" && terms == ["! b", "!a"]
    ensures Split(filter) == terms && Sorted(terms) && Join(terms) == filter
  {
    filter, terms := "! b,!a", ["! b", "!a"];
    SplitOneMore("! b", "!a");
    SplitLast("!a");
    assert "! b" + "," + "!a" == "! b,!a";
    assert ["! b"] + ["!a"] == ["! b", "!a"];
    assert "! b"[1..] == " b" && "!a"[1..] == "a";
    assert Less(" b", "a");
    LessIsTotal("! b", "!a");
    assert ["! b", "!a"][1..] == ["!a"];
  }

  lemma LooseTerms(filter: string, terms: seq<string>)
    requires Split(filter) == terms == ["! b", "!a"]
    ensures Terms(filter) == terms
  {
    assert Trim(terms[0]) == terms[0] && Trim(terms[1]) == terms[1];
    assert |Terms(filter)| == 2 && Terms(filter)[0] == terms[0] && Terms(filter)[1] == terms[1];
  }

  lemma LooseNegatives(terms: seq<string>)
    requires terms == ["! b", "!a"]
    ensures Negatives(terms) == ["b", "a"] && Positives(terms) == []
    ensures IsNegated(terms[1]) && Negatee(terms[1]) == "a"
  {
    assert "! b"[1..] == " b" && " b"[1..] == "b" && "!a"[1..] == "a";
    assert Trim(" b") == Trim("b") == "b" && Trim("a") == "a";
    assert terms[..1] == ["! b"] && ["! b"][..0] == [];
    assert Negatives(["! b"]) == ["b"] && Positives(["! b"]) == [];
  }

  lemma LooseSearch(needles: seq<string>) returns (tags: seq<string>)
    requires needles == ["b", "a"]
    ensures Sorted(tags) && "a" in tags && !FindsRecord(tags, needles)
  {
    tags := ["a", "c"];
    assert Less("a", "b") && Less("a", "c");
    LessIsTotal("a", "c");
    forall k | 0 <= k < |needles| && IsRecord(needles, k)
      ensures needles[k] !in tags
    {
      assert Less(needles[1], needles[0]);
    }
  }

  ghost predicate IsMisjudged(tags: seq<string>, filter: string, text: string) {
    Sorted(tags) && IsKept(filter, text) && Accepts(tags, text) && !Selects(tags, Terms(filter))
  }

  lemma OverlookedIsMisjudged(tags: seq<string>, filter: string, terms: seq<string>, t: string)
    requires Sorted(tags) && Sorted(terms) && Terms(filter) == terms && Join(terms) == filter
    requires Split(filter) == terms && |terms| > 1 && filter != ""
    requires Positives(terms) == [] && !FindsRecord(tags, Negatives(terms))
    requires t in terms && IsNegated(t) && Negatee(t) in tags
    ensures IsMisjudged(tags, filter, filter)
  {
  }

  /** A space after a negation mark can hide a negated tag: the test has it and is accepted all the same. */
  lemma NegationCanBeOverlooked()
    ensures exists tags, filter, text :: IsMisjudged(tags, filter, text)
  {
    var filter, terms := LooseFilter();
    LooseTerms(filter, terms);
    LooseNegatives(terms);
    var tags := LooseSearch(Negatives(terms));
    OverlookedIsMisjudged(tags, filter, terms, terms[1]);
  }
}
