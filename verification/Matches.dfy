/** The match iterator and the replacer over any engine (crates/regex/src/lib.rs:458-515, 600-662).
    Text is UTF-8 bytes and offsets count bytes. */
module Matches {
  import opened Wrappers
  import Sequences

  type Bytes = seq<bv8>

  datatype Span = Span(start: nat, end: nat)

  datatype MatchError<+E> = InputTooLarge(len: nat, limit: nat) | Engine(e: E)

  /** What one search from an offset under a budget yields: the match found and the budget left. */
  datatype Found = Found(span: Option<Span>, budget: Option<nat>)

  datatype Regex<!E> = Regex(search: (Bytes, nat, Option<nat>) -> Result<Found, E>, inputBytes: nat,
    budget: Option<nat>)

  // ----- characters -----

  /** The width of a character, from its first byte. */
  function Width(b: bv8): (w: nat)
    ensures 1 <= w <= 4
  {
    if b < 0x80 then 1 else if b < 0xE0 then 2 else if b < 0xF0 then 3 else 4
  }

  /** Whole characters lead from `i` to `at`. */
  predicate Reaches(text: Bytes, i: nat, at: nat)
    decreases if i < |text| then |text| - i else 0
  {
    i == at || (i < at && i < |text| && Reaches(text, i + Width(text[i]), at))
  }

  predicate IsBoundary(text: Bytes, at: nat) {
    at <= |text| && Reaches(text, 0, at)
  }

  /** UTF-8 as far as it matters here: the characters fill the text exactly. */
  predicate IsText(text: Bytes) {
    IsBoundary(text, |text|)
  }

  function NextCharBoundary(text: Bytes, at: nat): nat {
    if at < |text| && IsBoundary(text, at) then at + Width(text[at]) else at + 1
  }

  lemma {:induction false} ReachesFurther(text: Bytes, i: nat, a: nat, b: nat)
    requires Reaches(text, i, a) && Reaches(text, i, b) && a < b
    ensures a < |text| && Reaches(text, a, b)
    decreases if i < |text| then |text| - i else 0
  {
    if i != a {
      ReachesFurther(text, i + Width(text[i]), a, b);
    }
  }

  lemma {:induction false} ReachesNext(text: Bytes, i: nat, a: nat)
    requires Reaches(text, i, a) && a < |text|
    ensures Reaches(text, i, a + Width(text[a]))
    decreases if i < |text| then |text| - i else 0
  {
    if i != a {
      ReachesNext(text, i + Width(text[i]), a);
    } else {
      assert Reaches(text, a + Width(text[a]), a + Width(text[a]));
    }
  }

  /** The next boundary is one, and there is none in between. */
  lemma NextIsNext(text: Bytes, at: nat)
    requires IsText(text) && IsBoundary(text, at) && at < |text|
    ensures at < NextCharBoundary(text, at) && IsBoundary(text, NextCharBoundary(text, at))
    ensures forall q :: at < q < NextCharBoundary(text, at) ==> !IsBoundary(text, q)
  {
    var next := NextCharBoundary(text, at);
    ReachesNext(text, 0, at);
    ReachesFurther(text, 0, at, |text|);
    forall q | at < q < next ensures !IsBoundary(text, q) {
      if IsBoundary(text, q) {
        ReachesFurther(text, 0, at, q);
      }
    }
  }

  // ----- characters, as UTF-8 has them -----

  /** A byte that goes on with a character. */
  predicate IsTail(b: bv8) {
    0x80 <= b <= 0xBF
  }

  /** The encoding of one character (section 4 of RFC 3629). */
  predicate IsChar(c: Bytes) {
    (forall k :: 1 <= k < |c| ==> IsTail(c[k])) &&
    match |c|
    case 1 => c[0] <= 0x7F
    case 2 => 0xC2 <= c[0] <= 0xDF
    case 3 =>
      || (c[0] == 0xE0 && 0xA0 <= c[1])
      || 0xE1 <= c[0] <= 0xEC
      || (c[0] == 0xED && c[1] <= 0x9F)
      || 0xEE <= c[0] <= 0xEF
    case 4 =>
      || (c[0] == 0xF0 && 0x90 <= c[1])
      || 0xF1 <= c[0] <= 0xF3
      || (c[0] == 0xF4 && c[1] <= 0x8F)
    case _ => false
  }

  function Concat(chars: seq<Bytes>): Bytes {
    if chars == [] then [] else chars[0] + Concat(chars[1..])
  }

  lemma CharHasItsWidth(c: Bytes)
    requires IsChar(c)
    ensures c != [] && |c| == Width(c[0]) && !IsTail(c[0])
  {
  }

  lemma {:induction false} WholeCharsLead(before: Bytes, chars: seq<Bytes>, at: nat)
    requires forall k :: 0 <= k < |chars| ==> IsChar(chars[k])
    requires |before| <= at <= |before| + |Concat(chars)|
    ensures var text := before + Concat(chars);
            Reaches(text, |before|, at) <==> at == |text| || !IsTail(text[at])
    decreases |chars|
  {
    hide IsTail;
    var text := before + Concat(chars);
    if chars != [] {
      var c, rest := chars[0], Concat(chars[1..]);
      CharHasItsWidth(c);
      assert text == (before + c) + rest;
      assert text[|before|] == c[0];
      if |before| < at < |before| + |c| {
        assert text[at] == c[at - |before|];
        TailOf(c, at - |before|);
      } else if at != |before| {
        WholeCharsLead(before + c, chars[1..], at);
      }
    }
  }

  lemma TailOf(c: Bytes, k: nat)
    requires IsChar(c) && 1 <= k < |c|
    ensures IsTail(c[k])
  {
  }

  /** In well-formed UTF-8 the boundaries are just the offsets where no character goes on, and the
      next one is where the current character ends. */
  lemma BoundariesAreUtf8(chars: seq<Bytes>, at: nat)
    requires forall k :: 0 <= k < |chars| ==> IsChar(chars[k])
    requires at <= |Concat(chars)|
    ensures var text := Concat(chars);
            && IsText(text)
            && (IsBoundary(text, at) <==> at == |text| || !IsTail(text[at]))
            && (IsBoundary(text, at) && at < |text| ==>
                  var next := NextCharBoundary(text, at);
                  && at < next <= |text|
                  && (forall q :: at < q < next ==> IsTail(text[q]))
                  && (next < |text| ==> !IsTail(text[next])))
  {
    hide IsTail, IsChar, Reaches;
    var text := Concat(chars);
    assert [] + text == text;
    forall q: nat | q <= |text|
      ensures IsBoundary(text, q) <==> q == |text| || !IsTail(text[q])
    {
      WholeCharsLead([], chars, q);
    }
    if IsBoundary(text, at) && at < |text| {
      NextIsNext(text, at);
    }
  }

  // ----- the engine -----

  predicate Spends(before: Option<nat>, after: Option<nat>) {
    (before.None? <==> after.None?) && (before.Some? ==> after.value <= before.value)
  }

  ghost predicate FoundInText(found: Found, text: Bytes, p: nat, budget: Option<nat>) {
    && Spends(budget, found.budget)
    && (found.span.Some? ==>
          var span := found.span.value;
          p <= span.start <= span.end <= |text| && IsBoundary(text, span.start) && IsBoundary(text, span.end))
  }

  /** The engine's contract: what a search finds lies in the text, on character boundaries, at or
      after where the search started, and no search spends more than it was given. Which match is
      found may depend on where the search starts, as with PCRE2's `\G` and `\K`. */
  ghost predicate FindsInText<E(!new)>(re: Regex<E>, text: Bytes) {
    forall p: nat, b :: IsBoundary(text, p) && re.search(text, p, b).Ok? ==>
      FoundInText(re.search(text, p, b).value, text, p, b)
  }

  /** What an iteration yields: the matches, up to a failure if one ends it. */
  datatype Items<+E> = Items(spans: seq<Span>, failure: Option<E>)

  function Prepended<E>(span: Span, rest: Items<E>): Items<E> {
    Items([span] + rest.spans, rest.failure)
  }

  /** Search after search: from the end of each match, and past an empty one at that end. */
  ghost function ItemsFrom<E(!new)>(re: Regex<E>, text: Bytes, p: nat, lastEnd: Option<nat>,
      budget: Option<nat>): Items<E>
    requires IsText(text) && FindsInText(re, text) && (p <= |text| ==> IsBoundary(text, p))
    decreases if p <= |text| then |text| + 1 - p else 0, if lastEnd == Some(p) then 0 else 1
  {
    if p > |text| then Items([], None)
    else
      match re.search(text, p, budget)
      case Err(e) => Items([], Some(e))
      case Ok(found) =>
        if found.span.None? then Items([], None)
        else
          assert FoundInText(found, text, p, budget);
          var span := found.span.value;
          if span.start == span.end && lastEnd == Some(span.end) then
            NextIsBoundary(text, p);
            ItemsFrom(re, text, NextCharBoundary(text, p), lastEnd, found.budget)
          else Prepended(span, ItemsFrom(re, text, span.end, Some(span.end), found.budget))
  }

  lemma NextIsBoundary(text: Bytes, at: nat)
    requires IsText(text) && IsBoundary(text, at)
    ensures var next := NextCharBoundary(text, at);
            at < next && (next <= |text| ==> IsBoundary(text, next))
  {
    if at < |text| {
      NextIsNext(text, at);
    }
  }

  /** All that iterating over `text` yields. */
  ghost function AllItems<E(!new)>(re: Regex<E>, text: Bytes): Items<E>
    requires IsText(text) && FindsInText(re, text)
  {
    StartIsBoundary(text);
    ItemsFrom(re, text, 0, None, re.budget)
  }

  lemma StartIsBoundary(text: Bytes)
    ensures IsBoundary(text, 0)
  {
  }

  // ----- the iterator -----

  class CapturesIter<!E(!new)> {
    const re: Regex<E>
    const haystack: Bytes
    var start: nat
    var lastEnd: Option<nat>
    var budget: Option<nat>
    var checked: bool
    var done: bool

    constructor (re: Regex<E>, haystack: Bytes)
      ensures this.re == re && this.haystack == haystack
      ensures start == 0 && lastEnd == None && budget == re.budget && !checked && !done
    {
      this.re, this.haystack := re, haystack;
      start, lastEnd, budget, checked, done := 0, None, re.budget, false, false;
    }

    ghost predicate Valid()
      reads this
    {
      IsText(haystack) && FindsInText(re, haystack) && (start <= |haystack| ==> IsBoundary(haystack, start))
    }

    /** What is still to come. */
    ghost function Remaining(): Items<E>
      requires Valid()
      reads this
    {
      if done then Items([], None) else ItemsFrom(re, haystack, start, lastEnd, budget)
    }

    ghost predicate TooLarge() {
      |haystack| > re.inputBytes
    }

    method Next() returns (item: Option<Result<Span, MatchError<E>>>)
      requires Valid()
      modifies this
      ensures Valid() && Spends(old(budget), budget)
      ensures old(done) ==> item == None && done
      ensures !old(done) ==> checked
      ensures !old(done) && !old(checked) && TooLarge() ==>
        item == Some(Err(InputTooLarge(|haystack|, re.inputBytes))) && done
      ensures !(!old(done) && !old(checked) && TooLarge()) ==>
        match item
        case None => done && old(Remaining()) == Items([], None)
        case Some(Ok(span)) => !done && old(Remaining()) == Prepended(span, Remaining())
        case Some(Err(e)) => done && e.Engine? && old(Remaining()) == Items([], Some(e.e))
    {
      if done {
        return None;
      }
      if !checked {
        checked := true;
        if |haystack| > re.inputBytes {
          done := true;
          return Some(Err(InputTooLarge(|haystack|, re.inputBytes)));
        }
      }
      while true
        invariant Valid() && checked && !done
        invariant Spends(old(budget), budget)
        invariant old(Remaining()) == ItemsFrom(re, haystack, start, lastEnd, budget)
        decreases if start <= |haystack| then |haystack| + 1 - start else 0
      {
        if start > |haystack| {
          done := true;
          return None;
        }
        var found := re.search(haystack, start, budget);
        if found.Err? {
          done := true;
          return Some(Err(Engine(found.error)));
        }
        assert FoundInText(found.value, haystack, start, budget);
        budget := found.value.budget;
        if found.value.span.None? {
          done := true;
          return None;
        }
        var span := found.value.span.value;
        if span.start == span.end && Some(span.end) == lastEnd {
          NextIsBoundary(haystack, start);
          start := NextCharBoundary(haystack, start);
          continue;
        }
        lastEnd := Some(span.end);
        start := span.end;
        return Some(Ok(span));
      }
    }
  }

  /** The iterator drained: the matches up to the first failure, if there is one. */
  method CollectAll<E(!new)>(re: Regex<E>, text: Bytes) returns (spans: seq<Span>, failure: Option<MatchError<E>>)
    requires IsText(text) && FindsInText(re, text)
    ensures |text| > re.inputBytes ==> spans == [] && failure == Some(InputTooLarge(|text|, re.inputBytes))
    ensures |text| <= re.inputBytes ==>
      && spans == AllItems(re, text).spans
      && failure == match AllItems(re, text).failure case None => None case Some(e) => Some(Engine(e))
  {
    StartIsBoundary(text);
    var matches := new CapturesIter(re, text);
    spans := [];
    while true
      invariant matches.re == re && matches.haystack == text && matches.Valid() && fresh(matches) && !matches.done
      invariant !matches.checked ==> spans == []
      invariant matches.checked ==> |text| <= re.inputBytes
      invariant AllItems(re, text) == Items(spans + matches.Remaining().spans, matches.Remaining().failure)
      decreases |matches.Remaining().spans|
    {
      var item := matches.Next();
      if item.None? {
        return spans, None;
      }
      if item.value.Err? {
        return spans, Some(item.value.error);
      }
      Sequences.Associative(spans, [item.value.value], matches.Remaining().spans);
      spans := spans + [item.value.value];
    }
  }

  // ----- what an iteration yields -----

  /** `t` comes after `s`: no overlap, and not empty where `s` ended. */
  predicate Follows(s: Span, t: Span) {
    s.end <= t.start && t != Span(s.end, s.end)
  }

  ghost predicate Ordered(spans: seq<Span>, length: nat, p: nat, lastEnd: Option<nat>) {
    && (forall k :: 0 <= k < |spans| ==> p <= spans[k].start <= spans[k].end <= length)
    && (forall k :: 0 <= k < |spans| && lastEnd.Some? ==> spans[k] != Span(lastEnd.value, lastEnd.value))
    && (forall j, k :: 0 <= j < k < |spans| ==> Follows(spans[j], spans[k]))
  }

  lemma OrderedCons(s: Span, rest: seq<Span>, length: nat, p: nat, lastEnd: Option<nat>)
    requires Ordered(rest, length, s.end, Some(s.end)) && (lastEnd.Some? ==> lastEnd.value <= p)
    requires p <= s.start <= s.end <= length && (s.start == s.end ==> lastEnd != Some(s.end))
    ensures Ordered([s] + rest, length, p, lastEnd)
  {
    var spans := [s] + rest;
    assert forall k :: 1 <= k < |spans| ==> spans[k] == rest[k - 1];
  }

  lemma OrderedFurther(spans: seq<Span>, length: nat, p: nat, q: nat, lastEnd: Option<nat>)
    requires Ordered(spans, length, q, lastEnd) && p <= q
    ensures Ordered(spans, length, p, lastEnd)
  {
  }

  lemma {:induction false} ItemsAreOrdered<E(!new)>(re: Regex<E>, text: Bytes, p: nat, lastEnd: Option<nat>,
      budget: Option<nat>)
    requires IsText(text) && FindsInText(re, text) && (p <= |text| ==> IsBoundary(text, p))
    requires lastEnd.Some? ==> lastEnd.value <= p
    ensures Ordered(ItemsFrom(re, text, p, lastEnd, budget).spans, |text|, p, lastEnd)
    ensures InOrder(ItemsFrom(re, text, p, lastEnd, budget).spans, p, |text|)
    decreases if p <= |text| then |text| + 1 - p else 0, if lastEnd == Some(p) then 0 else 1
  {
    if p <= |text| && re.search(text, p, budget).Ok? && re.search(text, p, budget).value.span.Some? {
      var found := re.search(text, p, budget).value;
      assert FoundInText(found, text, p, budget);
      var span := found.span.value;
      if span.start == span.end && lastEnd == Some(span.end) {
        NextIsBoundary(text, p);
        var next := NextCharBoundary(text, p);
        ItemsAreOrdered(re, text, next, lastEnd, found.budget);
        OrderedFurther(ItemsFrom(re, text, next, lastEnd, found.budget).spans, |text|, p, next, lastEnd);
        InOrderFrom(ItemsFrom(re, text, next, lastEnd, found.budget).spans, p, next, |text|);
      } else {
        ItemsAreOrdered(re, text, span.end, Some(span.end), found.budget);
        OrderedCons(span, ItemsFrom(re, text, span.end, Some(span.end), found.budget).spans, |text|, p, lastEnd);
      }
    }
  }

  lemma InOrderFrom(spans: seq<Span>, p: nat, q: nat, length: nat)
    requires InOrder(spans, q, length) && p <= q
    ensures InOrder(spans, p, length)
  {
  }

  /** Of any engine the matches are ordered, do not overlap, lie in the text, and none is empty
      where an earlier one ended. */
  lemma MatchesAreOrdered<E(!new)>(re: Regex<E>, text: Bytes)
    requires IsText(text) && FindsInText(re, text)
    ensures var spans := AllItems(re, text).spans;
      && (forall k :: 0 <= k < |spans| ==> spans[k].start <= spans[k].end <= |text|)
      && (forall j, k :: 0 <= j < k < |spans| ==> Follows(spans[j], spans[k]))
  {
    StartIsBoundary(text);
    ItemsAreOrdered(re, text, 0, None, re.budget);
  }

  /** Nothing is yielded exactly when the first search finds nothing. */
  lemma NoneWithoutFirst<E(!new)>(re: Regex<E>, text: Bytes)
    requires IsText(text) && FindsInText(re, text)
    ensures AllItems(re, text) == Items([], None) <==>
            re.search(text, 0, re.budget).Ok? && re.search(text, 0, re.budget).value.span.None?
  {
    StartIsBoundary(text);
    if re.search(text, 0, re.budget).Ok? && re.search(text, 0, re.budget).value.span.Some? {
      var found := re.search(text, 0, re.budget).value;
      assert FoundInText(found, text, 0, re.budget);
      var end := found.span.value.end;
      assert AllItems(re, text) == Prepended(found.span.value, ItemsFrom(re, text, end, Some(end), found.budget));
    }
  }

  // ----- engines whose matches do not depend on where a search starts -----

  /** Where a match that starts at an offset ends, if one does. */
  type Best = nat -> Option<nat>

  /** Matches lie in the text and on character boundaries. */
  ghost predicate InText(best: Best, text: Bytes) {
    forall p: nat :: best(p).Some? ==>
      p <= best(p).value <= |text| && IsBoundary(text, p) && IsBoundary(text, best(p).value)
  }

  ghost predicate InBounds(best: Best, length: nat) {
    forall p: nat :: best(p).Some? ==> p <= best(p).value <= length
  }

  /** The first match at or after `p`. */
  ghost function FirstFrom(best: Best, length: nat, p: nat): Option<Span>
    decreases if p <= length then length + 1 - p else 0
  {
    if p > length then None
    else if best(p).Some? then Some(Span(p, best(p).value))
    else FirstFrom(best, length, p + 1)
  }

  /** A search that does not fail finds the first match at or after its start. */
  ghost predicate FindsLeftmost<E(!new)>(re: Regex<E>, text: Bytes, best: Best) {
    && InText(best, text)
    && forall p: nat, b :: IsBoundary(text, p) && re.search(text, p, b).Ok? ==>
      re.search(text, p, b).value.span == FirstFrom(best, |text|, p) && Spends(b, re.search(text, p, b).value.budget)
  }

  lemma LeftmostFindsInText<E(!new)>(re: Regex<E>, text: Bytes, best: Best)
    requires FindsLeftmost(re, text, best)
    ensures FindsInText(re, text)
  {
    forall p: nat, b | IsBoundary(text, p) && re.search(text, p, b).Ok?
      ensures FoundInText(re.search(text, p, b).value, text, p, b)
    {
      ScanFromFirst(best, |text|, p, None);
    }
  }

  /** The matches of a text, one offset at a time: an empty match where the previous one ended
      does not count. */
  ghost function Scan(best: Best, length: nat, p: nat, lastEnd: Option<nat>): seq<Span>
    requires InBounds(best, length)
    decreases if p <= length then length + 1 - p else 0, if lastEnd == Some(p) then 0 else 1
  {
    if p > length then []
    else
      match best(p)
      case None => Scan(best, length, p + 1, lastEnd)
      case Some(end) =>
        if end == p && lastEnd == Some(p) then Scan(best, length, p + 1, lastEnd)
        else [Span(p, end)] + Scan(best, length, end, Some(end))
  }

  /** Searching ahead passes over nothing. */
  lemma {:induction false} ScanFromFirst(best: Best, length: nat, p: nat, lastEnd: Option<nat>)
    requires InBounds(best, length)
    ensures Scan(best, length, p, lastEnd) ==
      match FirstFrom(best, length, p)
      case None => []
      case Some(span) => Scan(best, length, span.start, lastEnd)
    ensures FirstFrom(best, length, p).Some? ==>
      p <= FirstFrom(best, length, p).value.start <= length
      && best(FirstFrom(best, length, p).value.start) == Some(FirstFrom(best, length, p).value.end)
    decreases if p <= length then length + 1 - p else 0
  {
    if p <= length && best(p).None? {
      ScanFromFirst(best, length, p + 1, lastEnd);
    }
  }

  /** Moving on by one character passes over nothing but the match at `p`. */
  lemma {:induction false} ScanNextCharacter(best: Best, length: nat, p: nat, q: nat, lastEnd: Option<nat>)
    requires InBounds(best, length) && p <= q
    requires forall k :: p <= k < q ==> best(k).None?
    ensures Scan(best, length, p, lastEnd) == Scan(best, length, q, lastEnd)
    decreases q - p
  {
    if p < q {
      ScanNextCharacter(best, length, p + 1, q, lastEnd);
      if p > length {
        assert Scan(best, length, q, lastEnd) == [];
      }
    }
  }

  /** An empty match where the last one ended is at `p` itself, so moving on by a character leaves
      the rest. */
  lemma SkipEmpty(text: Bytes, best: Best, p: nat, span: Span)
    requires IsText(text) && InText(best, text) && IsBoundary(text, p)
    requires span == Span(p, p) && FirstFrom(best, |text|, p) == Some(span)
    ensures var next := NextCharBoundary(text, p);
      Scan(best, |text|, p, Some(p)) == Scan(best, |text|, next, Some(p))
  {
    var next := NextCharBoundary(text, p);
    ScanFromFirst(best, |text|, p, Some(p));
    if p < |text| {
      NextIsNext(text, p);
    }
    ScanNextCharacter(best, |text|, p + 1, next, Some(p));
  }

  lemma {:induction false} ItemsAreScan<E(!new)>(re: Regex<E>, text: Bytes, best: Best, p: nat, lastEnd: Option<nat>,
      budget: Option<nat>)
    requires IsText(text) && FindsInText(re, text) && FindsLeftmost(re, text, best)
    requires (p <= |text| ==> IsBoundary(text, p)) && (lastEnd.Some? ==> lastEnd.value <= p)
    ensures var items := ItemsFrom(re, text, p, lastEnd, budget);
      && items.spans <= Scan(best, |text|, p, lastEnd)
      && (items.failure.None? ==> items.spans == Scan(best, |text|, p, lastEnd))
    decreases if p <= |text| then |text| + 1 - p else 0, if lastEnd == Some(p) then 0 else 1
  {
    ScanFromFirst(best, |text|, p, lastEnd);
    if p <= |text| && re.search(text, p, budget).Ok? && re.search(text, p, budget).value.span.Some? {
      var found := re.search(text, p, budget).value;
      assert FoundInText(found, text, p, budget);
      var span := found.span.value;
      if span.start == span.end && lastEnd == Some(span.end) {
        NextIsBoundary(text, p);
        SkipEmpty(text, best, p, span);
        ItemsAreScan(re, text, best, NextCharBoundary(text, p), lastEnd, found.budget);
      } else {
        ItemsAreScan(re, text, best, span.end, Some(span.end), found.budget);
        assert Scan(best, |text|, span.start, lastEnd) == [span] + Scan(best, |text|, span.end, Some(span.end));
      }
    }
  }

  /** Of such an engine the iteration yields the matches of the text, one offset at a time, or as
      many as come before a failure. */
  lemma IterationIsScan<E(!new)>(re: Regex<E>, text: Bytes, best: Best)
    requires IsText(text) && FindsLeftmost(re, text, best)
    ensures FindsInText(re, text)
    ensures AllItems(re, text).spans <= Scan(best, |text|, 0, None)
    ensures AllItems(re, text).failure.None? ==> AllItems(re, text).spans == Scan(best, |text|, 0, None)
  {
    LeftmostFindsInText(re, text, best);
    StartIsBoundary(text);
    ItemsAreScan(re, text, best, 0, None, re.budget);
  }

  /** Why a match that starts at `p` need not be among the spans. */
  ghost predicate Accounted(spans: seq<Span>, p: nat, end: nat) {
    || (exists k :: 0 <= k < |spans| && spans[k] == Span(p, end))
    || (exists k :: 0 <= k < |spans| && spans[k].start <= p < spans[k].end)
    || (p == end && exists k :: 0 <= k < |spans| && spans[k].end == p)
  }

  lemma {:induction false} ScanMissesNothing(best: Best, length: nat, p: nat, lastEnd: Option<nat>, q: nat)
    requires InBounds(best, length) && p <= q && best(q).Some?
    ensures Accounted(Scan(best, length, p, lastEnd), q, best(q).value) || (lastEnd == Some(q) && best(q) == Some(q))
    decreases if p <= length then length + 1 - p else 0, if lastEnd == Some(p) then 0 else 1
  {
    if best(p).None? || (best(p).value == p && lastEnd == Some(p)) {
      if p < q {
        ScanMissesNothing(best, length, p + 1, lastEnd, q);
      }
    } else {
      var end := best(p).value;
      var rest := Scan(best, length, end, Some(end));
      if end <= q && p < q {
        ScanMissesNothing(best, length, end, Some(end), q);
      }
      AccountedCons(Span(p, end), rest, q, best(q).value);
    }
  }

  lemma AccountedCons(s: Span, rest: seq<Span>, q: nat, end: nat)
    requires s.start <= q
    requires s == Span(q, end) || q < s.end || Accounted(rest, q, end) || (s.end == q && end == q)
    ensures Accounted([s] + rest, q, end)
  {
    var spans := [s] + rest;
    assert spans[0] == s;
    assert forall k :: 0 <= k < |rest| ==> rest[k] == spans[k + 1];
  }

  /** Every match there is was reported, starts inside a reported one, or is empty where a
      reported one ended. */
  lemma NothingIsMissed(best: Best, length: nat, q: nat)
    requires InBounds(best, length) && best(q).Some?
    ensures Accounted(Scan(best, length, 0, None), q, best(q).value)
  {
    ScanMissesNothing(best, length, 0, None, q);
  }

  /** There is no report exactly when there is no match. */
  lemma NoneWithoutMatch(best: Best, length: nat)
    requires InBounds(best, length)
    ensures Scan(best, length, 0, None) == [] <==> forall p: nat :: best(p).None?
  {
    ScanFromFirst(best, length, 0, None);
    if Scan(best, length, 0, None) == [] {
      forall p: nat
        ensures best(p).None?
      {
        if best(p).Some? {
          NothingIsMissed(best, length, p);
        }
      }
    }
  }

  // ----- replacing -----

  /** The text from `copied` on with every span replaced: gaps copied, spans substituted. */
  function Replaced(text: Bytes, spans: seq<Span>, replacement: Bytes, copied: nat): Bytes
    requires copied <= |text| && InOrder(spans, copied, |text|)
  {
    if spans == [] then text[copied..]
    else text[copied..spans[0].start] + replacement + Replaced(text, spans[1..], replacement, spans[0].end)
  }

  predicate InOrder(spans: seq<Span>, from: nat, length: nat)
    decreases |spans|
  {
    spans != [] ==> from <= spans[0].start <= spans[0].end <= length && InOrder(spans[1..], spans[0].end, length)
  }

  /** `replace_all`: `None` if nothing matched, else the text with every match replaced; the
      first failure ends it. */
  method ReplaceAll<E(!new)>(re: Regex<E>, text: Bytes, replacement: Bytes)
      returns (r: Result<Option<Bytes>, MatchError<E>>)
    requires IsText(text) && FindsInText(re, text)
    ensures InOrder(AllItems(re, text).spans, 0, |text|)
    ensures r ==
      var items := AllItems(re, text);
      if |text| > re.inputBytes then Err(InputTooLarge(|text|, re.inputBytes))
      else if items.failure.Some? then Err(Engine(items.failure.value))
      else if items.spans == [] then Ok(None)
      else Ok(Some(Replaced(text, items.spans, replacement, 0)))
  {
    StartIsBoundary(text);
    ItemsAreOrdered(re, text, 0, None, re.budget);
    var matches := new CapturesIter(re, text);
    var out: Option<Bytes> := None;
    var copied: nat := 0;
    ghost var all := AllItems(re, text);
    while true
      invariant matches.re == re && matches.haystack == text && matches.Valid() && fresh(matches) && !matches.done
      invariant copied <= |text| && InOrder(matches.Remaining().spans, copied, |text|)
      invariant matches.Remaining().failure == all.failure
      invariant out.None? ==> copied == 0 && matches.Remaining().spans == all.spans && !matches.checked
      invariant out.Some? ==> all.spans != [] && matches.checked && |text| <= re.inputBytes
      invariant out.Some? ==>
        Replaced(text, all.spans, replacement, 0) ==
          out.value + Replaced(text, matches.Remaining().spans, replacement, copied)
      decreases |matches.Remaining().spans|
    {
      ghost var before := matches.Remaining().spans;
      var item := matches.Next();
      if item.None? {
        return Ok(if out.None? then None else Some(out.value + text[copied..]));
      }
      if item.value.Err? {
        return Err(item.value.error);
      }
      var span := item.value.value;
      assert before[0] == span && before[1..] == matches.Remaining().spans;
      var start := if out.None? then [] else out.value;
      ReplacedStep(text, before, replacement, copied, start);
      out := Some(start + text[copied..span.start] + replacement);
      copied := span.end;
    }
  }

  lemma ReplacedStep(text: Bytes, spans: seq<Span>, replacement: Bytes, copied: nat, out: Bytes)
    requires copied <= |text| && InOrder(spans, copied, |text|) && spans != []
    ensures out + Replaced(text, spans, replacement, copied)
      == (out + text[copied..spans[0].start] + replacement) + Replaced(text, spans[1..], replacement, spans[0].end)
    ensures [] + Replaced(text, spans, replacement, copied) == Replaced(text, spans, replacement, copied)
  {
  }

  /** Bytes are conserved: what the spans held is gone, and a replacement stands for each. */
  lemma {:induction false} ReplacedLength(text: Bytes, spans: seq<Span>, replacement: Bytes, copied: nat)
    requires copied <= |text| && InOrder(spans, copied, |text|)
    ensures |Replaced(text, spans, replacement, copied)| + Held(spans) == |text| - copied + |spans| * |replacement|
  {
    if spans != [] {
      ReplacedLength(text, spans[1..], replacement, spans[0].end);
      assert |spans| * |replacement| == |spans[1..]| * |replacement| + |replacement|;
    }
  }

  function Held(spans: seq<Span>): int {
    if spans == [] then 0 else spans[0].end - spans[0].start + Held(spans[1..])
  }

  /** Replacing matches that all read as the replacement changes nothing. */
  lemma {:induction false} ReplacedBySelf(text: Bytes, spans: seq<Span>, replacement: Bytes, copied: nat)
    requires copied <= |text| && InOrder(spans, copied, |text|)
    requires AllRead(text, spans, replacement)
    ensures Replaced(text, spans, replacement, copied) == text[copied..]
  {
    if spans != [] {
      ReplacedBySelf(text, spans[1..], replacement, spans[0].end);
      assert text[copied..] == text[copied..spans[0].start] + text[spans[0].start..spans[0].end] + text[spans[0].end..];
    }
  }

  predicate AllRead(text: Bytes, spans: seq<Span>, read: Bytes)
    decreases |spans|
  {
    spans != [] ==>
      && spans[0].start <= spans[0].end <= |text|
      && text[spans[0].start..spans[0].end] == read
      && AllRead(text, spans[1..], read)
  }
}
