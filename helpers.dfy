/** The quote-aware substitution `replace_ifwithin` of helpers.py: every
    occurrence of `find` that lies inside a quoted stretch (quotes being the
    character `withIn`) is replaced by `replace`. Python compares each
    one-character string of the input with the three argument strings, so a
    longer `withIn` or `find` never matches and a longer `replace` is inserted
    whole. */
module Helpers {

  /** Python's `c == s` between the one-character string `[c]` and `s`. */
  predicate IsChar(c: char, s: string) {
    s == [c]
  }

  /** How many of the first `n` characters of `s` are the quote `withIn`. */
  function QuotesBefore(s: string, withIn: string, n: nat): nat
    requires n <= |s|
  {
    if n == 0 then 0 else QuotesBefore(s, withIn, n - 1) + (if IsChar(s[n - 1], withIn) then 1 else 0)
  }

  /** Position `i` is inside quotes: an odd number of quotes up to and including it. */
  predicate Inside(s: string, withIn: string, i: nat)
    requires i < |s|
  {
    QuotesBefore(s, withIn, i + 1) % 2 == 1
  }

  /** What is appended to the output for position `i`. */
  function Piece(s: string, withIn: string, find: string, replace: string, i: nat): string
    requires i < |s|
  {
    if Inside(s, withIn, i) && IsChar(s[i], find) then replace else [s[i]]
  }

  /** The output produced by the first `n` characters of `s`. */
  function ReplacedPrefix(s: string, withIn: string, find: string, replace: string, n: nat): string
    requires n <= |s|
  {
    if n == 0 then "" else ReplacedPrefix(s, withIn, find, replace, n - 1) + Piece(s, withIn, find, replace, n - 1)
  }

  function Replaced(s: string, withIn: string, find: string, replace: string): string {
    ReplacedPrefix(s, withIn, find, replace, |s|)
  }

  /** `replace_ifwithin(lIn, withIn, find, replace)`: one pass that flips the
      "inside" flag at every quote and substitutes `find` while it is set. */
  method ReplaceIfWithin(lIn: string, withIn: string := "\"", find: string := ",", replace: string := "_")
    returns (lOut: string)
    ensures lOut == Replaced(lIn, withIn, find, replace)
    ensures |replace| == 1 ==> |lOut| == |lIn|
    ensures |replace| == 1 ==> forall i :: 0 <= i < |lIn| ==>
              lOut[i] == if Inside(lIn, withIn, i) && IsChar(lIn[i], find) then replace[0] else lIn[i]
  {
    var bWithIn := false;
    lOut := "";
    for i := 0 to |lIn|
      invariant bWithIn <==> QuotesBefore(lIn, withIn, i) % 2 == 1
      invariant lOut == ReplacedPrefix(lIn, withIn, find, replace, i)
    {
      var c := [lIn[i]];
      if c == withIn {
        bWithIn := !bWithIn;
      }
      if bWithIn && c == find {
        c := replace;
      }
      lOut := lOut + c;
    }
    if |replace| == 1 {
      ReplacedAt(lIn, withIn, find, replace, |lIn|);
    }
  }

  /** With a one-character `replace` the output keeps every position: position
      `i` holds `replace` when a `find` stands there inside quotes, and the
      input character otherwise. */
  lemma {:induction false} ReplacedAt(s: string, withIn: string, find: string, replace: string, n: nat)
    requires |replace| == 1 && n <= |s|
    ensures |ReplacedPrefix(s, withIn, find, replace, n)| == n
    ensures forall i :: 0 <= i < n ==>
              ReplacedPrefix(s, withIn, find, replace, n)[i] ==
                if Inside(s, withIn, i) && IsChar(s[i], find) then replace[0] else s[i]
  {
    if n > 0 {
      ReplacedAt(s, withIn, find, replace, n - 1);
    }
  }

  /** A position changes exactly when it holds `find` inside quotes (for a
      one-character `replace` other than `find`); quotes and every other
      character are copied. */
  lemma ChangedIff(s: string, withIn: string, find: string, replace: string, i: nat)
    requires |replace| == 1 && replace != find && i < |s|
    ensures |Replaced(s, withIn, find, replace)| == |s|
    ensures Replaced(s, withIn, find, replace)[i] != s[i] <==> IsChar(s[i], find) && Inside(s, withIn, i)
  {
    ReplacedAt(s, withIn, find, replace, |s|);
  }

  /** Without any quote character among the first `n` characters, the flag
      stays off and the output so far is the input so far. */
  lemma {:induction false} NoQuoteUnchanged(s: string, withIn: string, find: string, replace: string, n: nat)
    requires n <= |s|
    requires forall i :: 0 <= i < n ==> !IsChar(s[i], withIn)
    ensures QuotesBefore(s, withIn, n) == 0
    ensures ReplacedPrefix(s, withIn, find, replace, n) == s[..n]
  {
    if n > 0 {
      NoQuoteUnchanged(s, withIn, find, replace, n - 1);
      assert s[..n] == s[..n - 1] + [s[n - 1]];
    }
  }

  lemma NoQuoteIdentity(s: string, withIn: string, find: string, replace: string)
    requires forall i :: 0 <= i < |s| ==> !IsChar(s[i], withIn)
    ensures Replaced(s, withIn, find, replace) == s
  {
    NoQuoteUnchanged(s, withIn, find, replace, |s|);
  }

  /** A quote that opens (an even number of quotes before it) and is never
      closed makes everything from it to the end of the string "inside". */
  lemma {:induction false} UnmatchedQuoteOpens(s: string, withIn: string, q: nat, i: nat)
    requires q <= i < |s|
    requires IsChar(s[q], withIn) && QuotesBefore(s, withIn, q) % 2 == 0
    requires forall j :: q < j < |s| ==> !IsChar(s[j], withIn)
    ensures QuotesBefore(s, withIn, i + 1) == QuotesBefore(s, withIn, q) + 1
    ensures Inside(s, withIn, i)
  {
    if i > q {
      UnmatchedQuoteOpens(s, withIn, q, i - 1);
    }
  }

  /** Substitution changes no quote, so both strings have the same quotes before every position. */
  lemma {:induction false} QuotesKept(s: string, withIn: string, find: string, replace: string, n: nat)
    requires |withIn| == 1 && |find| == 1 && |replace| == 1
    requires withIn != find && replace != withIn
    requires n <= |s|
    ensures |Replaced(s, withIn, find, replace)| == |s|
    ensures QuotesBefore(Replaced(s, withIn, find, replace), withIn, n) == QuotesBefore(s, withIn, n)
  {
    var t := Replaced(s, withIn, find, replace);
    ReplacedAt(s, withIn, find, replace, |s|);
    if n > 0 {
      QuotesKept(s, withIn, find, replace, n - 1);
      assert IsChar(t[n - 1], withIn) <==> IsChar(s[n - 1], withIn);
    }
  }

  /** With one-character arguments that are pairwise different, a second pass
      changes nothing: the quotes stay where they were and no `find` is left
      inside them. */
  lemma ReplaceIdempotent(s: string, withIn: string, find: string, replace: string)
    requires |withIn| == 1 && |find| == 1 && |replace| == 1
    requires withIn != find && replace != find && replace != withIn
    ensures Replaced(Replaced(s, withIn, find, replace), withIn, find, replace) == Replaced(s, withIn, find, replace)
  {
    var t := Replaced(s, withIn, find, replace);
    ReplacedAt(s, withIn, find, replace, |s|);
    ReplacedAt(t, withIn, find, replace, |t|);
    var u := Replaced(t, withIn, find, replace);
    forall i | 0 <= i < |t|
      ensures u[i] == t[i]
    {
      QuotesKept(s, withIn, find, replace, i + 1);
      assert Inside(t, withIn, i) == Inside(s, withIn, i);
    }
  }
}
