/** The conventional optional value. */
module Wrappers {
  datatype Option<+T> = None | Some(value: T)
}

/**
 * String helpers the core relies on: an ASCII case fold, substring search,
 * and splitting and joining on a separator character, with the round trips
 * that tie the splitters to the joiners.
 */
module Text {
  import opened Wrappers

  /** ASCII-only lower-casing of one character. */
  function LowerChar(c: char): char {
    if 'A' <= c <= 'Z' then (c as int + 32) as char else c
  }

  /** ASCII-only lower-casing of a string, character by character. */
  function Lower(s: string): string {
    seq(|s|, i requires 0 <= i < |s| => LowerChar(s[i]))
  }

  /** `part` occurs in `s` as a contiguous substring. */
  predicate Contains(s: string, part: string) {
    exists i :: 0 <= i <= |s| - |part| && OccursAt(s, part, i)
  }

  /** `part` occurs in `s` starting at index `i`. */
  predicate OccursAt(s: string, part: string, i: int)
    requires 0 <= i <= |s| - |part|
  {
    s[i..i + |part|] == part
  }

  lemma ContainsEmpty(s: string)
    ensures Contains(s, "")
  {
    assert OccursAt(s, "", 0);
  }

  lemma LowerIdempotent(s: string)
    ensures Lower(Lower(s)) == Lower(s)
  {
  }

  /** The index of the first `c` in `s`, or `|s|` when there is none. */
  function IndexOfChar(s: string, c: char): (k: nat)
    ensures k <= |s|
    ensures forall j :: 0 <= j < k ==> s[j] != c
    ensures k < |s| ==> s[k] == c
  {
    if s == [] then 0
    else if s[0] == c then 0
    else 1 + IndexOfChar(s[1..], c)
  }

  /** A character that is not in `a` is first found right after `a`, when it starts `b`. */
  lemma {:induction false} IndexOfCharAfter(a: string, b: string, c: char)
    requires c !in a
    requires b == [] || b[0] == c
    ensures IndexOfChar(a + b, c) == |a|
  {
    if a == [] {
      assert a + b == b;
    } else {
      assert (a + b)[0] == a[0];
      assert (a + b)[1..] == a[1..] + b;
      IndexOfCharAfter(a[1..], b, c);
    }
  }

  /** No item contains the separator. */
  predicate FreeOf(items: seq<string>, sep: char) {
    forall i :: 0 <= i < |items| ==> sep !in items[i]
  }

  /** Each item followed by `sep`: the layout of a text of lines ending in newlines. */
  function Terminated(items: seq<string>, sep: char): string {
    if items == [] then [] else items[0] + [sep] + Terminated(items[1..], sep)
  }

  /** Cuts `s` at every `sep`; a final piece without a trailing `sep` is kept. */
  function SplitTerminated(s: string, sep: char): seq<string>
    decreases |s|
  {
    if s == [] then []
    else
      var k := IndexOfChar(s, sep);
      if k == |s| then [s] else [s[..k]] + SplitTerminated(s[k + 1..], sep)
  }

  lemma {:induction false} SplitTerminatedRoundTrip(items: seq<string>, sep: char)
    requires FreeOf(items, sep)
    ensures SplitTerminated(Terminated(items, sep), sep) == items
  {
    if items != [] {
      var rest := Terminated(items[1..], sep);
      var s := Terminated(items, sep);
      assert s == items[0] + ([sep] + rest);
      IndexOfCharAfter(items[0], [sep] + rest, sep);
      assert s[..|items[0]|] == items[0];
      assert s[|items[0]| + 1..] == rest;
      SplitTerminatedRoundTrip(items[1..], sep);
    }
  }

  /** Each item preceded by `sep`. */
  function Prefixed(items: seq<string>, sep: char): string {
    if items == [] then [] else [sep] + items[0] + Prefixed(items[1..], sep)
  }

  /** Reads back a `Prefixed` text; `None` when it does not start with `sep`. */
  function SplitPrefixed(s: string, sep: char): Option<seq<string>>
    decreases |s|
  {
    if s == [] then Some([])
    else if s[0] != sep then None
    else
      var body := s[1..];
      var k := IndexOfChar(body, sep);
      match SplitPrefixed(body[k..], sep)
      case None => None
      case Some(tail) => Some([body[..k]] + tail)
  }

  lemma {:induction false} SplitPrefixedRoundTrip(items: seq<string>, sep: char)
    requires FreeOf(items, sep)
    ensures SplitPrefixed(Prefixed(items, sep), sep) == Some(items)
  {
    if items != [] {
      var rest := Prefixed(items[1..], sep);
      var s := Prefixed(items, sep);
      assert s == [sep] + (items[0] + rest);
      assert s[0] == sep;
      var body := s[1..];
      assert body == items[0] + rest;
      IndexOfCharAfter(items[0], rest, sep);
      assert body[..|items[0]|] == items[0];
      assert body[|items[0]|..] == rest;
      SplitPrefixedRoundTrip(items[1..], sep);
      assert [items[0]] + items[1..] == items;
    }
  }
}
