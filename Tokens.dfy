/**
  The input side of the page: the text field is split on commas, empty pieces
  are dropped, and the resulting tokens are handed to the tree builder.
 */
module Tokens {

  /** Number of commas in `s`. */
  function CommaCount(s: string): nat
  {
    if s == [] then 0 else (if s[0] == ',' then 1 else 0) + CommaCount(s[1..])
  }

  /** `s` with every comma removed, other characters kept in order. */
  function Strip(s: string): string
  {
    if s == [] then [] else (if s[0] == ',' then [] else [s[0]]) + Strip(s[1..])
  }

  /** The pieces glued back together with a comma between neighbours. */
  function Join(parts: seq<string>): string
  {
    if parts == [] then []
    else if |parts| == 1 then parts[0]
    else parts[0] + [','] + Join(parts[1..])
  }

  /** The pieces glued back together with nothing between them. */
  function Concat(parts: seq<string>): string
  {
    if parts == [] then [] else parts[0] + Concat(parts[1..])
  }

  /**
    JavaScript's `s.split(",")`: the maximal comma-free pieces of `s`, in order,
    one more than there are commas (so the empty string gives one empty piece).
   */
  function Split(s: string): (parts: seq<string>)
    ensures |parts| == CommaCount(s) + 1
    ensures forall i :: 0 <= i < |parts| ==> ',' !in parts[i]
  {
    if s == [] then [[]]
    else
      var rest := Split(s[1..]);
      if s[0] == ',' then [[]] + rest
      else [[s[0]] + rest[0]] + rest[1..]
  }

  /**
    JavaScript's `parts.filter(e => e)` on strings: keeps the non-empty ones, in
    order. Every non-empty piece is kept as often as it occurs, and only the
    empty ones are dropped.
   */
  function NonEmpty(parts: seq<string>): (kept: seq<string>)
    ensures |kept| <= |parts|
    ensures forall i :: 0 <= i < |kept| ==> kept[i] != [] && kept[i] in parts
    ensures multiset(kept) == multiset(parts)[[] := 0]
  {
    if parts == [] then []
    else
      assert parts == [parts[0]] + parts[1..];
      (if parts[0] == [] then [] else [parts[0]]) + NonEmpty(parts[1..])
  }

  /**
    The filter works piece by piece and keeps the order: filtering two lists
    one after the other is filtering each and putting the results one after
    the other.
   */
  lemma {:induction false} NonEmptyAppend(a: seq<string>, b: seq<string>)
    ensures NonEmpty(a + b) == NonEmpty(a) + NonEmpty(b)
  {
    if a == [] {
      assert a + b == b;
    } else {
      var head := if a[0] == [] then [] else [a[0]];
      assert (a + b)[0] == a[0] && (a + b)[1..] == a[1..] + b;
      assert NonEmpty(a + b) == head + NonEmpty(a[1..] + b);
      NonEmptyAppend(a[1..], b);
      assert head + (NonEmpty(a[1..]) + NonEmpty(b)) == (head + NonEmpty(a[1..])) + NonEmpty(b);
    }
  }

  /** `value.split(",").filter(e => e)`: the tokens the tree is built from. */
  function TokensOf(value: string): seq<string>
  {
    NonEmpty(Split(value))
  }

  /** Splitting and joining again gives back the original text. */
  lemma {:induction false} JoinSplit(s: string)
    ensures Join(Split(s)) == s
  {
    if s != [] {
      var rest := Split(s[1..]);
      JoinSplit(s[1..]);
      if s[0] == ',' {
        assert Split(s) == [[]] + rest;
        assert ([[]] + rest)[1..] == rest;
      } else if |rest| == 1 {
        assert Split(s) == [[s[0]] + rest[0]];
      } else {
        var parts := Split(s);
        assert parts[0] == [s[0]] + rest[0] && parts[1..] == rest[1..];
        assert Join(rest) == rest[0] + [','] + Join(rest[1..]);
      }
    }
  }

  /** Splitting a comma-free prefix followed by a comma peels that prefix off. */
  lemma {:induction false} SplitPeel(p: string, r: string)
    requires ',' !in p
    ensures Split(p + [','] + r) == [p] + Split(r)
  {
    if p == [] {
      assert ([] + [','] + r)[1..] == r;
    } else {
      assert (p + [','] + r)[1..] == p[1..] + [','] + r;
      SplitPeel(p[1..], r);
      assert [p[0]] + p[1..] == p;
    }
  }

  /** A comma-free string splits into itself alone. */
  lemma {:induction false} SplitSingle(p: string)
    requires ',' !in p
    ensures Split(p) == [p]
  {
    if p != [] {
      SplitSingle(p[1..]);
      assert [p[0]] + p[1..] == p;
    }
  }

  /** Joining comma-free pieces and splitting again gives back the pieces. */
  lemma {:induction false} SplitJoin(parts: seq<string>)
    requires |parts| >= 1
    requires forall i :: 0 <= i < |parts| ==> ',' !in parts[i]
    ensures Split(Join(parts)) == parts
  {
    if |parts| == 1 {
      SplitSingle(parts[0]);
    } else {
      SplitJoin(parts[1..]);
      SplitPeel(parts[0], Join(parts[1..]));
      assert [parts[0]] + parts[1..] == parts;
    }
  }

  /** Gluing the split pieces without separators is the text with its commas removed. */
  lemma {:induction false} ConcatSplit(s: string)
    ensures Concat(Split(s)) == Strip(s)
  {
    if s != [] {
      var rest := Split(s[1..]);
      ConcatSplit(s[1..]);
      if s[0] == ',' {
        assert Split(s) == [[]] + rest;
        assert ([[]] + rest)[1..] == rest;
      } else {
        var parts := Split(s);
        assert parts[0] == [s[0]] + rest[0] && parts[1..] == rest[1..];
        assert Concat(rest) == rest[0] + Concat(rest[1..]);
      }
    }
  }

  /** Dropping empty pieces does not change what they spell when glued together. */
  lemma {:induction false} ConcatNonEmpty(parts: seq<string>)
    ensures Concat(NonEmpty(parts)) == Concat(parts)
  {
    if parts != [] {
      ConcatNonEmpty(parts[1..]);
      var head := if parts[0] == [] then [] else [parts[0]];
      assert NonEmpty(parts) == head + NonEmpty(parts[1..]);
      if parts[0] != [] {
        var kept := [parts[0]] + NonEmpty(parts[1..]);
        assert kept[0] == parts[0] && kept[1..] == NonEmpty(parts[1..]);
        assert Concat(kept) == parts[0] + Concat(NonEmpty(parts[1..]));
      } else {
        assert NonEmpty(parts) == NonEmpty(parts[1..]);
      }
    }
  }

  /** Filtering pieces that are already non-empty keeps all of them. */
  lemma {:induction false} NonEmptyKeepsAll(parts: seq<string>)
    requires forall i :: 0 <= i < |parts| ==> parts[i] != []
    ensures NonEmpty(parts) == parts
  {
    if parts != [] {
      NonEmptyKeepsAll(parts[1..]);
      assert [parts[0]] + parts[1..] == parts;
    }
  }

  /** Non-empty strings glue to the empty string only when there are none. */
  lemma {:induction false} ConcatEmpty(parts: seq<string>)
    requires forall i :: 0 <= i < |parts| ==> parts[i] != []
    ensures Concat(parts) == [] <==> parts == []
  {
    if parts != [] {
      assert |Concat(parts)| >= |parts[0]| > 0;
    }
  }

  /**
    What the input handler passes on: tokens that are non-empty and comma-free,
    which spell the input with its commas removed, in their original order.
   */
  lemma TokensShape(value: string)
    ensures forall i :: 0 <= i < |TokensOf(value)| ==>
              TokensOf(value)[i] != [] && ',' !in TokensOf(value)[i]
    ensures Concat(TokensOf(value)) == Strip(value)
    ensures TokensOf(value) == [] <==> Strip(value) == []
  {
    var parts := Split(value);
    forall i | 0 <= i < |TokensOf(value)|
      ensures ',' !in TokensOf(value)[i]
    {
      var t := TokensOf(value)[i];
      assert t in parts;
      var j :| 0 <= j < |parts| && parts[j] == t;
    }
    ConcatNonEmpty(parts);
    ConcatSplit(value);
    ConcatEmpty(TokensOf(value));
  }

  /** Tokens that are non-empty and comma-free survive a join, split and filter unchanged. */
  lemma TokensOfJoin(tokens: seq<string>)
    requires forall i :: 0 <= i < |tokens| ==> tokens[i] != [] && ',' !in tokens[i]
    ensures TokensOf(Join(tokens)) == tokens
  {
    if tokens == [] {
      assert Split([]) == [[]];
    } else {
      SplitJoin(tokens);
      NonEmptyKeepsAll(tokens);
    }
  }

  /** What the submit handler does with the text of the input field. */
  datatype Submission = Alert | Render(tokens: seq<string>)

  /**
    The submit handler as written: only an empty input field raises the alert;
    anything else is split, filtered and rendered.
   */
  function OnSubmit(value: string): (r: Submission)
    ensures r.Alert? <==> value == []
  {
    if value != [] then Render(TokensOf(value)) else Alert
  }

  /**
    As written, a non-empty input made only of commas (such as ",") passes the
    guard and reaches the builder with no tokens at all, so no tree root exists
    for the renderer.
   */
  lemma OnSubmitPassesNoTokens(value: string)
    requires value != [] && Strip(value) == []
    ensures OnSubmit(value) == Render([])
  {
    TokensShape(value);
  }

  /** The comma-only input "," is such an input. */
  lemma OnlyCommaIsLetThrough()
    ensures OnSubmit([',']) == Render([])
  {
    assert Strip([',']) == [];
    OnSubmitPassesNoTokens([',']);
  }

  /**
    The submit handler with the guard on the tokens rather than on the raw text:
    the alert is raised exactly when the input holds no character other than
    commas, and whatever is rendered has at least one token.
   */
  function OnSubmitChecked(value: string): (r: Submission)
    ensures r.Alert? <==> Strip(value) == []
    ensures r.Render? ==> r.tokens != [] && r.tokens == TokensOf(value)
  {
    TokensShape(value);
    var tokens := TokensOf(value);
    if tokens != [] then Render(tokens) else Alert
  }
}
