/** The string helpers of stringExtension.c as pure functions. The C versions
    cut strings in place (writing '\0' into the buffer and moving a cursor);
    here each returns the pieces as new sequences. */
module StringExtension {
  import opened CLib

  /** The index of the first character at or after i that is not white
      space (|s| when there is none). */
  function SpaceEnd(s: string, i: nat): (k: nat)
    requires i <= |s|
    ensures i <= k <= |s|
    ensures forall x :: i <= x < k ==> IsSpace(s[x])
    ensures k < |s| ==> !IsSpace(s[k])
    decreases |s| - i
  {
    if i < |s| && IsSpace(s[i]) then SpaceEnd(s, i + 1) else i
  }

  /** The index just past the last character below j that is not white
      space, looking no lower than lo (lo when there is none). */
  function SpaceStart(s: string, lo: nat, j: nat): (k: nat)
    requires lo <= j <= |s|
    ensures lo <= k <= j
    ensures forall x :: k <= x < j ==> IsSpace(s[x])
    ensures k > lo ==> !IsSpace(s[k - 1])
  {
    if j > lo && IsSpace(s[j - 1]) then SpaceStart(s, lo, j - 1) else j
  }

  /** trimStr: the contiguous piece of `s` left once white space is removed
      from both ends (TrimShape); a string of white space only becomes empty. */
  function Trim(s: string): (r: string)
    ensures |r| <= |s|
    ensures |r| > 0 ==> !IsSpace(r[0]) && !IsSpace(r[|r| - 1])
  {
    var i := SpaceEnd(s, 0);
    s[i..SpaceStart(s, i, |s|)]
  }

  /** What trimStr leaves is a piece s[i..j] of its argument with nothing but
      white space before and after it. */
  lemma TrimShape(s: string) returns (i: nat, j: nat)
    ensures i <= j <= |s| && Trim(s) == s[i..j]
    ensures forall x :: 0 <= x < i ==> IsSpace(s[x])
    ensures forall x :: j <= x < |s| ==> IsSpace(s[x])
  {
    i := SpaceEnd(s, 0);
    j := SpaceStart(s, i, |s|);
  }

  /** trimStr on a pointer that may be NULL: NULL stays NULL. */
  function TrimOpt(s: Option<string>): (r: Option<string>)
    ensures r.Some? <==> s.Some?
    ensures s.Some? ==> r.value == Trim(s.value)
  {
    match s
    case None => None
    case Some(v) => Some(Trim(v))
  }

  /** Trimming twice is the same as trimming once. */
  lemma TrimIdempotent(s: string)
    ensures Trim(Trim(s)) == Trim(s)
  {
    TrimNoSpaceEnds(Trim(s));
  }

  /** A string whose ends are not white space is its own trim. */
  lemma TrimNoSpaceEnds(s: string)
    requires |s| == 0 || (!IsSpace(s[0]) && !IsSpace(s[|s| - 1]))
    ensures Trim(s) == s
  {
    assert SpaceEnd(s, 0) == 0;
    assert SpaceStart(s, 0, |s|) == |s|;
  }

  /** strcspn: the length of the prefix holding no delimiter. */
  function Span(s: string, delims: set<char>): (k: nat)
    ensures k <= |s|
    ensures forall i :: 0 <= i < k ==> s[i] !in delims
    ensures k < |s| ==> s[k] in delims
  {
    if |s| == 0 || s[0] in delims then 0 else 1 + Span(s[1..], delims)
  }

  /** The two results of myStrsep: the returned token and the updated cursor. */
  datatype Sep = Sep(token: Option<string>, rest: Option<string>)

  /** myStrsep: the token before the first delimiter, with the cursor moved
      past that delimiter; with no delimiter the whole string is the token
      and the cursor becomes NULL; a NULL cursor yields NULL. */
  function StrSep(s: Option<string>, delims: set<char>): (r: Sep)
    ensures s.None? ==> r == Sep(None, None)
    ensures s.Some? ==> r.token.Some?
    ensures s.Some? ==> forall i :: 0 <= i < |r.token.value| ==> r.token.value[i] !in delims
    ensures s.Some? && r.rest.None? ==> r.token.value == s.value
    ensures s.Some? && r.rest.Some? ==>
      var k := |r.token.value|;
      k < |s.value| && s.value[k] in delims && s.value == r.token.value + [s.value[k]] + r.rest.value
  {
    match s
    case None => Sep(None, None)
    case Some(v) =>
      var k := Span(v, delims);
      if k < |v| then
        assert v == v[..k] + [v[k]] + v[k + 1..];
        Sep(Some(v[..k]), Some(v[k + 1..]))
      else
        Sep(Some(v), None)
  }

  /** Splitting at a delimiter that does not occur in the first part. */
  lemma StrSepAt(a: string, d: char, b: string)
    requires d !in a
    ensures StrSep(Some(a + [d] + b), {d}) == Sep(Some(a), Some(b))
  {
    var v := a + [d] + b;
    var k := Span(v, {d});
    assert v[|a|] == d;
    assert forall i :: 0 <= i < |a| ==> v[i] == a[i];
    assert k == |a|;
    assert v[..k] == a;
    assert v[k + 1..] == b;
  }

  lemma StrSepNone(a: string, delims: set<char>)
    requires forall i :: 0 <= i < |a| ==> a[i] !in delims
    ensures StrSep(Some(a), delims) == Sep(Some(a), None)
  {
  }

  function CountChar(s: string, d: char): (n: nat)
    ensures n <= |s|
  {
    if |s| == 0 then 0 else (if s[0] == d then 1 else 0) + CountChar(s[1..], d)
  }

  lemma {:induction false} CountCharConcat(a: string, b: string, d: char)
    ensures CountChar(a + b, d) == CountChar(a, d) + CountChar(b, d)
  {
    if |a| > 0 {
      assert (a + b)[1..] == a[1..] + b;
      CountCharConcat(a[1..], b, d);
    } else {
      assert a + b == b;
    }
  }

  lemma CountCharAbsent(a: string, d: char)
    requires d !in a
    ensures CountChar(a, d) == 0
  {
    if |a| > 0 {
      assert d !in a[1..];
      CountCharAbsent(a[1..], d);
    }
  }

  /** Joins the pieces with one delimiter between neighbours. */
  function Join(parts: seq<string>, d: char): string {
    if |parts| == 0 then ""
    else if |parts| == 1 then parts[0]
    else parts[0] + [d] + Join(parts[1..], d)
  }

  /** The tokens that calling myStrsep(&cursor, "d") until it returns NULL
      produces: one more than there are delimiters, empty ones included. */
  function Fields(s: string, d: char): (r: seq<string>)
    ensures |r| == CountChar(s, d) + 1
    ensures forall i :: 0 <= i < |r| ==> d !in r[i]
    ensures Join(r, d) == s
    decreases |s|
  {
    var sep := StrSep(Some(s), {d});
    if sep.rest.None? then
      CountCharAbsent(s, d);
      [s]
    else
      var tok, rest := sep.token.value, sep.rest.value;
      CountCharConcat(tok + [d], rest, d);
      CountCharConcat(tok, [d], d);
      CountCharAbsent(tok, d);
      [tok] + Fields(rest, d)
  }

  /** One myStrsep step peels off the first field. */
  lemma FieldsStep(s: string, d: char, tok: string, rest: Option<string>)
    requires StrSep(Some(s), {d}) == Sep(Some(tok), rest)
    ensures rest.None? ==> Fields(s, d) == [tok]
    ensures rest.Some? ==> Fields(s, d) == [tok] + Fields(rest.value, d)
  {
  }

  /** Splitting the join of delimiter-free pieces gives the pieces back. */
  lemma {:induction false} FieldsOfJoin(parts: seq<string>, d: char)
    requires |parts| >= 1
    requires forall i :: 0 <= i < |parts| ==> d !in parts[i]
    ensures Fields(Join(parts, d), d) == parts
  {
    if |parts| == 1 {
      StrSepNone(parts[0], {d});
    } else {
      var rest := Join(parts[1..], d);
      var s := Join(parts, d);
      assert s == parts[0] + [d] + rest;
      StrSepAt(parts[0], d, rest);
      FieldsOfJoin(parts[1..], d);
      assert Fields(s, d) == [parts[0]] + Fields(rest, d);
      assert parts == [parts[0]] + parts[1..];
    }
  }

  /** The non-empty tokens, in order: what strtok returns one by one. */
  function NonEmpty(xs: seq<string>): (r: seq<string>)
    ensures |r| <= |xs|
    ensures forall i :: 0 <= i < |r| ==> r[i] != ""
    ensures (forall i :: 0 <= i < |xs| ==> xs[i] != "") ==> r == xs
  {
    if |xs| == 0 then []
    else if xs[0] == "" then NonEmpty(xs[1..])
    else [xs[0]] + NonEmpty(xs[1..])
  }

  /** The number of slots strSplit allocates: one per delimiter, one for a
      trailing token unless the string ends with the delimiter, and one for
      the terminating NULL. */
  function SplitSlots(s: string, d: char): nat {
    CountChar(s, d) + (if |s| > 0 && s[|s| - 1] == d then 0 else 1) + 1
  }

  /** strSplit: the non-empty tokens in order. Its `assert`s demand that the
      tokens fill exactly the slots counted in advance; when they do not the
      program aborts, modelled as None. */
  function StrSplit(s: string, d: char): (r: Option<seq<string>>)
    ensures r.Some? <==> |NonEmpty(Fields(s, d))| == SplitSlots(s, d) - 1
    ensures r.Some? ==> r.value == NonEmpty(Fields(s, d))
    ensures var f := Fields(s, d);
      r.Some? <==> EmptyOnlyLast(f) && (f[|f| - 1] == "" ==> |f| >= 2)
    ensures r.Some? ==> forall i :: 0 <= i < |r.value| ==> r.value[i] != "" && d !in r.value[i]
    ensures r.Some? ==> Join(r.value, d) + (if |s| > 0 && s[|s| - 1] == d then [d] else []) == s
  {
    SplitSlotsFilled(s, d);
    var tokens := NonEmpty(Fields(s, d));
    if |tokens| == SplitSlots(s, d) - 1 then
      TokensOfSplit(s, d);
      Some(tokens)
    else None
  }

  /** strSplit tokenises its argument in place: strtok writes '\0' over the
      delimiter that ends each token. What the caller's pointer still reads
      afterwards is the text up to the first delimiter that follows a token
      (leading delimiters are skipped, not overwritten). */
  function SplitResidue(s: string, d: char): (r: string)
    ensures |r| <= |s| && r == s[..|r|]
  {
    if |s| > 0 && s[0] == d then [d] + SplitResidue(s[1..], d)
    else s[..Span(s, {d})]
  }

  /** When the text does not start with the delimiter, the residue is the first field. */
  lemma SplitResidueIsFirstField(s: string, d: char)
    requires |s| == 0 || s[0] != d
    ensures SplitResidue(s, d) == Fields(s, d)[0]
  {
  }

  /** Only the last token can be empty. */
  predicate EmptyOnlyLast(xs: seq<string>) {
    forall i :: 0 <= i < |xs| - 1 ==> xs[i] != ""
  }

  lemma {:induction false} NonEmptyDropsEmpty(xs: seq<string>)
    requires |xs| >= 1 && EmptyOnlyLast(xs) && xs[|xs| - 1] == ""
    ensures |NonEmpty(xs)| == |xs| - 1
  {
    if |xs| > 1 {
      NonEmptyDropsEmpty(xs[1..]);
    }
  }

  lemma {:induction false} NonEmptyShort(xs: seq<string>, i: nat)
    requires i < |xs| && xs[i] == ""
    ensures |NonEmpty(xs)| < |xs|
  {
    if i > 0 {
      NonEmptyShort(xs[1..], i - 1);
    }
  }

  lemma {:induction false} NonEmptyTwoShort(xs: seq<string>, i: nat, j: nat)
    requires i < j < |xs| && xs[i] == "" && xs[j] == ""
    ensures |NonEmpty(xs)| < |xs| - 1
  {
    if i > 0 {
      NonEmptyTwoShort(xs[1..], i - 1, j - 1);
    } else {
      NonEmptyShort(xs[1..], j - 1);
    }
  }

  /** The last field is empty exactly when the string is empty or ends with
      the delimiter. */
  lemma {:induction false} LastFieldEmpty(s: string, d: char)
    ensures var f := Fields(s, d);
      f[|f| - 1] == "" <==> (|s| == 0 || s[|s| - 1] == d)
    decreases |s|
  {
    var sep := StrSep(Some(s), {d});
    if sep.rest.Some? {
      var rest := sep.rest.value;
      LastFieldEmpty(rest, d);
      if |rest| > 0 {
        assert s[|s| - 1] == rest[|rest| - 1];
      }
    }
  }

  lemma NonEmptyAll(xs: seq<string>)
    requires EmptyOnlyLast(xs) && |xs| >= 1 && xs[|xs| - 1] != ""
    ensures |NonEmpty(xs)| == |xs|
  {
    assert forall i :: 0 <= i < |xs| ==> xs[i] != "";
  }

  lemma SlotsEndingWithDelimiter(s: string, d: char)
    requires |s| > 0 && s[|s| - 1] == d
    ensures SplitSlots(s, d) - 1 == |Fields(s, d)| - 1 >= 1
  {
    assert s == s[..|s| - 1] + [d];
    CountCharConcat(s[..|s| - 1], [d], d);
  }

  lemma SplitDefinedEndingWithDelimiter(f: seq<string>, slots: int)
    requires |f| >= 2 && f[|f| - 1] == "" && slots == |f| - 1
    ensures |NonEmpty(f)| == slots <==> EmptyOnlyLast(f)
  {
    if EmptyOnlyLast(f) {
      NonEmptyDropsEmpty(f);
    } else {
      var i :| 0 <= i < |f| - 1 && f[i] == "";
      NonEmptyTwoShort(f, i, |f| - 1);
    }
  }

  lemma SplitDefinedOtherwise(f: seq<string>, slots: int)
    requires |f| >= 1 && slots == |f|
    ensures |NonEmpty(f)| == slots <==> EmptyOnlyLast(f) && f[|f| - 1] != ""
  {
    if EmptyOnlyLast(f) && f[|f| - 1] != "" {
      NonEmptyAll(f);
    } else if f[|f| - 1] == "" {
      NonEmptyShort(f, |f| - 1);
    } else {
      var i :| 0 <= i < |f| - 1 && f[i] == "";
      NonEmptyShort(f, i);
    }
  }

  /** strSplit's assertions hold exactly when every token is non-empty,
      except that a single trailing empty token is allowed after a final
      delimiter. */
  lemma StrSplitDefined(s: string, d: char)
    ensures var f := Fields(s, d);
      StrSplit(s, d).Some? <==> EmptyOnlyLast(f) && (f[|f| - 1] == "" ==> |f| >= 2)
  {
    SplitSlotsFilled(s, d);
  }

  /** The slot count strSplit allocates is filled exactly when only the last
      field may be empty, and it is empty only after a delimiter. */
  lemma SplitSlotsFilled(s: string, d: char)
    ensures var f := Fields(s, d);
      |NonEmpty(f)| == SplitSlots(s, d) - 1 <==> EmptyOnlyLast(f) && (f[|f| - 1] == "" ==> |f| >= 2)
  {
    var f := Fields(s, d);
    var slots := SplitSlots(s, d) - 1;
    LastFieldEmpty(s, d);
    if |s| > 0 && s[|s| - 1] == d {
      SlotsEndingWithDelimiter(s, d);
      SplitDefinedEndingWithDelimiter(f, slots);
    } else {
      assert slots == |f|;
      SplitDefinedOtherwise(f, slots);
    }
  }

  /** Dropping the empty fields of a list where only the last one is empty
      drops exactly that one. */
  lemma {:induction false} NonEmptyDropLast(xs: seq<string>)
    requires |xs| >= 1 && EmptyOnlyLast(xs) && xs[|xs| - 1] == ""
    ensures NonEmpty(xs) == xs[..|xs| - 1]
  {
    if |xs| > 1 {
      NonEmptyDropLast(xs[1..]);
      assert xs[1..][..|xs| - 2] == xs[1..|xs| - 1];
      assert xs[..|xs| - 1] == [xs[0]] + xs[1..|xs| - 1];
    }
  }

  /** Joining one more part puts a delimiter before it. */
  lemma {:induction false} JoinSnoc(parts: seq<string>, last: string, d: char)
    requires |parts| >= 1
    ensures Join(parts + [last], d) == Join(parts, d) + [d] + last
    decreases |parts|
  {
    if |parts| > 1 {
      JoinSnoc(parts[1..], last, d);
      assert (parts + [last])[1..] == parts[1..] + [last];
    }
  }

  /** When strSplit's slots are filled its tokens hold no delimiter and
      join back to the text, less a final delimiter. */
  lemma TokensOfSplit(s: string, d: char)
    requires var f := Fields(s, d); EmptyOnlyLast(f) && (f[|f| - 1] == "" ==> |f| >= 2)
    ensures var t := NonEmpty(Fields(s, d));
      && (forall i :: 0 <= i < |t| ==> d !in t[i])
      && Join(t, d) + (if |s| > 0 && s[|s| - 1] == d then [d] else []) == s
  {
    var f := Fields(s, d);
    LastFieldEmpty(s, d);
    if f[|f| - 1] == "" {
      TokensAfterFinalDelimiter(f, s, d);
    } else {
      TokensWithoutFinalDelimiter(f);
    }
  }

  /** Fields none of which is empty are the tokens themselves. */
  lemma TokensWithoutFinalDelimiter(f: seq<string>)
    requires |f| >= 1 && EmptyOnlyLast(f) && f[|f| - 1] != ""
    ensures NonEmpty(f) == f
  {
    assert forall i :: 0 <= i < |f| ==> f[i] != "";
  }

  /** The fields of a text that ends with the delimiter, where only the last
      is empty: the tokens are all but the last field. */
  lemma TokensAfterFinalDelimiter(f: seq<string>, s: string, d: char)
    requires |f| >= 2 && EmptyOnlyLast(f) && f[|f| - 1] == "" && Join(f, d) == s
    requires forall i :: 0 <= i < |f| ==> d !in f[i]
    ensures NonEmpty(f) == f[..|f| - 1]
    ensures forall i :: 0 <= i < |f| - 1 ==> d !in NonEmpty(f)[i]
    ensures |s| > 0 && s[|s| - 1] == d && Join(NonEmpty(f), d) + [d] == s
  {
    var g := f[..|f| - 1];
    NonEmptyDropLast(f);
    assert f == g + [""];
    JoinSnoc(g, "", d);
  }

  /** P holds of every element from index i up to n, and none of those
      indices is missing: a loop `for (k = i; k < n; k++)` over xs that
      stops at the first failure and runs off the end otherwise. */
  predicate EveryFrom<T>(xs: seq<T>, P: T -> bool, i: nat, n: int)
    decreases n - i
  {
    i >= n || (i < |xs| && P(xs[i]) && EveryFrom(xs, P, i + 1, n))
  }

  lemma {:induction false} EveryFromAll<T>(xs: seq<T>, P: T -> bool, i: nat, n: int)
    ensures EveryFrom(xs, P, i, n) <==> (i < n ==> n <= |xs|) && forall j :: i <= j < n ==> P(xs[j])
    decreases n - i
  {
    if i < n {
      EveryFromAll(xs, P, i + 1, n);
    }
  }
}
