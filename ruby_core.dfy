/** The few pieces of Ruby and ActiveSupport semantics that the invitations
    controller relies on: `Object#blank?` for a request parameter,
    `String#split(',')`, `Array#select` and `Array#first(n)`. */
module RubyCore {

  datatype Option<+T> = None | Some(value: T)

  function Min(a: nat, b: nat): nat { if a <= b then a else b }

  // ---------------------------------------------------------------------------
  // blank?
  // ---------------------------------------------------------------------------

  /** POSIX class [[:space:]] of a Unicode string in Ruby's regexp engine:
      the characters with the Unicode White_Space property. */
  predicate IsSpace(c: char)
  {
    ('\t' <= c <= '\r') || c == ' ' || c == '\U{85}' || c == '\U{A0}'
    || c == '\U{1680}' || ('\U{2000}' <= c <= '\U{200A}')
    || c == '\U{2028}' || c == '\U{2029}' || c == '\U{202F}'
    || c == '\U{205F}' || c == '\U{3000}'
  }

  /** `String#blank?`: the string matches /\A[[:space:]]*\z/. */
  predicate IsBlankString(s: string)
  {
    forall i :: 0 <= i < |s| ==> IsSpace(s[i])
  }

  /** `blank?` on a request parameter: nil is blank, a string is blank when
      it is empty or holds only white space. */
  predicate IsBlank(v: Option<string>)
  {
    match v
    case None => true
    case Some(s) => IsBlankString(s)
  }

  /** A non-empty string whose first character is not white space (a
      comma, say) is not blank. */
  lemma NotBlankAt(s: string, k: nat)
    requires k < |s| && !IsSpace(s[k])
    ensures !IsBlank(Some(s))
  {
  }

  /** What is left of `s` once its leading [[:space:]] characters are
      skipped, one at a time. */
  function SkipSpaces(s: string): string
  {
    if s != [] && IsSpace(s[0]) then SkipSpaces(s[1..]) else s
  }

  /** `blank?` agrees with the one-pass reading "nothing but white space
      before the end", and with it on every concatenation: a string is blank
      exactly when both of its parts are. */
  lemma {:induction false} BlankIffSkipSpaces(s: string)
    ensures IsBlank(Some(s)) <==> SkipSpaces(s) == ""
    ensures forall t :: IsBlank(Some(s + t)) <==> IsBlank(Some(s)) && IsBlank(Some(t))
  {
    if s != [] && IsSpace(s[0]) {
      BlankIffSkipSpaces(s[1..]);
      assert IsBlank(Some(s)) <==> IsBlank(Some(s[1..]));
      forall t ensures IsBlank(Some(s + t)) <==> IsBlank(Some(s)) && IsBlank(Some(t)) {
        assert (s + t)[1..] == s[1..] + t;
        assert IsBlank(Some(s + t)) <==> IsBlank(Some((s + t)[1..]));
      }
    } else if s != [] {
      forall t ensures !IsBlank(Some(s + t)) {
        NotBlankAt(s + t, 0);
      }
      NotBlankAt(s, 0);
    } else {
      forall t ensures s + t == t { }
    }
  }

  // ---------------------------------------------------------------------------
  // split(',')
  // ---------------------------------------------------------------------------

  /** Position of the first comma of `s`, or |s| when there is none. */
  function IndexOfComma(s: string): (i: nat)
    ensures i <= |s|
    ensures forall k :: 0 <= k < i ==> s[k] != ','
    ensures i < |s| ==> s[i] == ','
  {
    if s == [] || s[0] == ',' then 0 else 1 + IndexOfComma(s[1..])
  }

  /** The text between consecutive commas, all of it: a string with n commas
      has n + 1 fields, empty ones included. */
  function SplitAll(s: string): (fields: seq<string>)
    ensures |fields| >= 1
    ensures forall k :: 0 <= k < |fields| ==> ',' !in fields[k]
    decreases |s|
  {
    var i := IndexOfComma(s);
    if i == |s| then [s] else [s[..i]] + SplitAll(s[i + 1..])
  }

  /** `Array#join(',')`. */
  function Join(fields: seq<string>): string
  {
    if |fields| == 0 then ""
    else if |fields| == 1 then fields[0]
    else fields[0] + "," + Join(fields[1..])
  }

  /** Drops the empty strings at the end of a list of fields, as `split`
      without a limit does. */
  function DropTrailingEmpty(fields: seq<string>): (r: seq<string>)
    ensures r <= fields
    ensures r == [] || r[|r| - 1] != ""
    ensures forall k :: |r| <= k < |fields| ==> fields[k] == ""
  {
    if fields == [] || fields[|fields| - 1] != "" then fields
    else DropTrailingEmpty(fields[..|fields| - 1])
  }

  /** `String#split(',')` with Ruby's semantics: cut at every comma, keep the
      fields verbatim (no trimming), drop trailing empty fields. */
  function Split(s: string): (fields: seq<string>)
    ensures forall k :: 0 <= k < |fields| ==> ',' !in fields[k]
    ensures fields == [] || fields[|fields| - 1] != ""
    ensures fields <= SplitAll(s)
    ensures forall k :: |fields| <= k < |SplitAll(s)| ==> SplitAll(s)[k] == ""
  {
    DropTrailingEmpty(SplitAll(s))
  }

  /** `[i, j)` is one comma-delimited field of `s`: it has no comma and is
      bounded on each side by a comma or an end of the string. */
  ghost predicate FieldAt(s: string, i: int, j: int)
  {
    0 <= i <= j <= |s|
    && (i == 0 || s[i - 1] == ',')
    && (j == |s| || s[j] == ',')
    && forall k :: i <= k < j ==> s[k] != ','
  }

  /** The first comma of a + "," + b is the one after a, when a has none. */
  lemma IndexOfCommaAfter(a: string, b: string)
    requires ',' !in a
    ensures IndexOfComma(a + "," + b) == |a|
  {
    var s := a + "," + b;
    var i := IndexOfComma(s);
    assert s[|a|] == ',';
  }

  /** Joining the fields of `s` back with commas gives `s`. */
  lemma {:induction false} JoinSplitAll(s: string)
    ensures Join(SplitAll(s)) == s
    decreases |s|
  {
    var i := IndexOfComma(s);
    if i < |s| {
      var t := s[i + 1..];
      var fields := [s[..i]] + SplitAll(t);
      assert SplitAll(s) == fields;
      assert fields[0] == s[..i] && fields[1..] == SplitAll(t);
      assert Join(fields) == s[..i] + "," + Join(SplitAll(t));
      JoinSplitAll(t);
      assert s == s[..i] + "," + t;
    }
  }

  /** Splitting a join of comma-free fields gives those fields back. */
  lemma {:induction false} SplitAllJoin(fields: seq<string>)
    requires |fields| >= 1
    requires forall k :: 0 <= k < |fields| ==> ',' !in fields[k]
    ensures SplitAll(Join(fields)) == fields
    decreases |fields|
  {
    if |fields| == 1 {
      assert Join(fields) == fields[0];
    } else {
      var a, b := fields[0], Join(fields[1..]);
      IndexOfCommaAfter(a, b);
      var s := a + "," + b;
      assert s[..|a|] == a;
      assert s[|a| + 1..] == b;
      SplitAllJoin(fields[1..]);
      assert fields == [a] + fields[1..];
    }
  }

  /** A string has one field more than it has commas. */
  lemma {:induction false} SplitAllCount(s: string)
    ensures |SplitAll(s)| == multiset(s)[','] + 1
    decreases |s|
  {
    var i := IndexOfComma(s);
    if i == |s| {
      assert ',' !in multiset(s);
    } else {
      SplitAllCount(s[i + 1..]);
      assert s == s[..i] + [','] + s[i + 1..];
      assert ',' !in multiset(s[..i]);
    }
  }

  /** A field of the text after a comma is a field of the whole string. */
  lemma FieldAtShift(s: string, n: nat, i: int, j: int)
    requires n < |s| && s[n] == ','
    requires FieldAt(s[n + 1..], i, j)
    ensures FieldAt(s, n + 1 + i, n + 1 + j)
    ensures s[n + 1..][i..j] == s[n + 1 + i..n + 1 + j]
  {
  }

  /** Every field that `SplitAll` returns is a verbatim piece of `s`. */
  lemma {:induction false} SplitAllVerbatim(s: string, k: nat)
    requires k < |SplitAll(s)|
    ensures exists i, j :: FieldAt(s, i, j) && SplitAll(s)[k] == s[i..j]
    decreases |s|
  {
    var n := IndexOfComma(s);
    if n == |s| {
      assert FieldAt(s, 0, |s|) && SplitAll(s)[k] == s[0..|s|];
    } else if k == 0 {
      assert FieldAt(s, 0, n) && SplitAll(s)[k] == s[0..n];
    } else {
      var t := s[n + 1..];
      assert SplitAll(s)[k] == SplitAll(t)[k - 1];
      SplitAllVerbatim(t, k - 1);
      var i, j :| FieldAt(t, i, j) && SplitAll(t)[k - 1] == t[i..j];
      FieldAtShift(s, n, i, j);
    }
  }

  /** Each field `split(',')` returns is a comma-free piece of `s` between
      two commas (or the ends), taken verbatim. */
  lemma SplitVerbatim(s: string, k: nat)
    requires k < |Split(s)|
    ensures exists i, j :: FieldAt(s, i, j) && Split(s)[k] == s[i..j]
  {
    SplitAllVerbatim(s, k);
  }

  /** `split(',')` gives no field at all exactly when `s` is made of commas
      only (the empty string included). */
  lemma {:induction false} SplitEmptyIff(s: string)
    ensures Split(s) == [] <==> forall k :: 0 <= k < |s| ==> s[k] == ','
  {
    if forall k :: 0 <= k < |s| ==> s[k] == ',' {
      AllCommasSplitAll(s);
    } else {
      var k :| 0 <= k < |s| && s[k] != ',';
      if Split(s) == [] {
        JoinSplitAll(s);
        JoinOfEmptyFields(SplitAll(s), k);
        assert false;
      }
    }
  }

  lemma {:induction false} AllCommasSplitAll(s: string)
    requires forall k :: 0 <= k < |s| ==> s[k] == ','
    ensures forall k :: 0 <= k < |SplitAll(s)| ==> SplitAll(s)[k] == ""
    decreases |s|
  {
    if s != [] {
      assert IndexOfComma(s) == 0;
      AllCommasSplitAll(s[1..]);
    }
  }

  /** A join of empty fields holds nothing but commas. */
  lemma {:induction false} JoinOfEmptyFields(fields: seq<string>, k: nat)
    requires forall m :: 0 <= m < |fields| ==> fields[m] == ""
    requires k < |Join(fields)|
    ensures Join(fields)[k] == ','
    decreases |fields|
  {
    if |fields| > 1 {
      assert Join(fields) == "," + Join(fields[1..]);
      if k > 0 {
        JoinOfEmptyFields(fields[1..], k - 1);
      }
    }
  }

  /** Ruby's `fields.join(',').split(',') == fields` for a list of
      comma-free fields that is empty or whose last field is not empty. */
  lemma SplitJoin(fields: seq<string>)
    requires fields == [] || fields[|fields| - 1] != ""
    requires forall k :: 0 <= k < |fields| ==> ',' !in fields[k]
    ensures Split(Join(fields)) == fields
  {
    if fields == [] {
      assert SplitAll("") == [""];
    } else {
      SplitAllJoin(fields);
    }
  }

  /** A non-empty string without commas is its own single field. */
  lemma SplitNoComma(s: string)
    requires s != "" && ',' !in s
    ensures Split(s) == [s]
  {
  }

  /** "a,,b," splits into "a", "" and "b": inner empty fields stay, the
      trailing one goes. */
  lemma SplitExample()
    ensures Split("a,,b,") == ["a", "", "b"]
  {
    var fields := ["a", "", "b", ""];
    assert Join(fields) == "a,,b,";
    SplitAllJoin(fields);
    assert DropTrailingEmpty(fields) == DropTrailingEmpty(fields[..3]);
  }

  // ---------------------------------------------------------------------------
  // select and first(n)
  // ---------------------------------------------------------------------------

  /** `Array#select`: the elements satisfying `p`, in their order. */
  function Select<T(==,!new)>(xs: seq<T>, p: T -> bool): (r: seq<T>)
    ensures |r| <= |xs|
    ensures forall k :: 0 <= k < |r| ==> p(r[k])
    ensures forall x :: x in r <==> x in xs && p(x)
  {
    if xs == [] then []
    else if p(xs[0]) then [xs[0]] + Select(xs[1..], p)
    else Select(xs[1..], p)
  }

  /** `a` occurs in `b` in order, possibly with gaps. */
  predicate Subsequence<T(==)>(a: seq<T>, b: seq<T>)
    decreases |b|
  {
    if a == [] then true
    else if b == [] then false
    else if a[0] == b[0] then Subsequence(a[1..], b[1..])
    else Subsequence(a, b[1..])
  }

  /** `select` keeps its elements in their original order, and every
      element satisfying `p` as many times as it occurs. */
  lemma {:induction false} SelectKeepsOrderAndCount<T(!new)>(xs: seq<T>, p: T -> bool)
    ensures Subsequence(Select(xs, p), xs)
    ensures forall x :: multiset(Select(xs, p))[x] == if p(x) then multiset(xs)[x] else 0
  {
    if xs != [] {
      SelectKeepsOrderAndCount(xs[1..], p);
      assert xs == [xs[0]] + xs[1..];
    }
  }

  /** `select` is empty when no element satisfies `p`. */
  lemma {:induction false} SelectNone<T(!new)>(xs: seq<T>, p: T -> bool)
    requires forall k :: 0 <= k < |xs| ==> !p(xs[k])
    ensures Select(xs, p) == []
  {
    if xs != [] {
      SelectNone(xs[1..], p);
    }
  }

  /** A prefix of a subsequence is a subsequence. */
  lemma {:induction false} SubsequencePrefix<T>(a: seq<T>, b: seq<T>, n: nat)
    requires Subsequence(a, b) && n <= |a|
    ensures Subsequence(a[..n], b)
    decreases |b|
  {
    if n > 0 && b != [] {
      if a[0] == b[0] {
        SubsequencePrefix(a[1..], b[1..], n - 1);
        assert a[..n][1..] == a[1..][..n - 1];
      } else {
        SubsequencePrefix(a, b[1..], n);
      }
    }
  }

  /** `Array#first(n)`: the first n elements, or all of them when fewer. */
  function First<T>(xs: seq<T>, n: nat): (r: seq<T>)
    ensures |r| == Min(n, |xs|)
    ensures r <= xs
  {
    if |xs| <= n then xs else xs[..n]
  }

  /** Reference definition of "the first n elements satisfying p": one pass
      over `xs` that stops once n have been found. */
  function FirstSatisfying<T>(xs: seq<T>, p: T -> bool, n: nat): seq<T>
  {
    if n == 0 || xs == [] then []
    else if p(xs[0]) then [xs[0]] + FirstSatisfying(xs[1..], p, n - 1)
    else FirstSatisfying(xs[1..], p, n)
  }

  /** `xs.select(&p).first(n)` is the first n elements satisfying p. */
  lemma {:induction false} FirstOfSelect<T(!new)>(xs: seq<T>, p: T -> bool, n: nat)
    ensures First(Select(xs, p), n) == FirstSatisfying(xs, p, n)
  {
    if n > 0 && xs != [] {
      FirstOfSelect(xs[1..], p, if p(xs[0]) then n - 1 else n);
    }
  }
}
