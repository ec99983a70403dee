/**
 The global regular expression /(.+?)\((.+?)\)/g that both the notation
 parser and the pinyin pair parser run over a notation such as "谢(xiè)谢(xie)".

 Semantics as JavaScript's `RegExp.prototype.exec` evaluates it: the search
 starts at `lastIndex` and tries each start position in turn; at a start `p`
 the lazy first group grows one character at a time until a '(' follows, and
 for that '(' the lazy second group grows until a ')' follows; if no ')' can
 be reached the first group grows past that '('. '.' matches every character
 except the four line terminators.
 */
module NotationRegex {
  import opened Optional

  /** A match: the unit is s[start..open], the phonetic s[open+1..close] */
  datatype Match = Match(start: nat, open: nat, close: nat)

  /** The characters '.' does not match */
  predicate IsLineTerminator(c: char) {
    c == '\n' || c == '\r' || c == '\U{2028}' || c == '\U{2029}'
  }

  /** s[lo..hi) can be consumed by '.' repeated */
  predicate NoTerminator(s: string, lo: nat, hi: nat)
    requires lo <= hi <= |s|
  {
    forall i :: lo <= i < hi ==> !IsLineTerminator(s[i])
  }

  /** The pattern matches at `p` with its '(' at `q` and its ')' at `c` */
  predicate IsMatch(s: string, p: nat, q: nat, c: nat) {
    && p < q && q + 2 <= c < |s|
    && s[q] == '(' && s[c] == ')'
    && NoTerminator(s, p, q) && NoTerminator(s, q + 1, c)
  }

  /** The shape of a match without the line-terminator conditions: a non-empty
      first group, then "(", a non-empty second group and ")" inside the text */
  predicate Delimited(s: string, m: Match) {
    && m.start < m.open && m.open + 2 <= m.close < |s|
    && s[m.open] == '(' && s[m.close] == ')'
  }

  /** The match the lazy quantifiers pick at `p`: least '(' position, then least ')' position */
  ghost predicate IsChosen(s: string, p: nat, q: nat, c: nat) {
    && IsMatch(s, p, q, c)
    && (forall q', c' :: IsMatch(s, p, q', c') ==> q <= q')
    && (forall c' :: IsMatch(s, p, q, c') ==> c <= c')
  }

  /** The second group has consumed s[q+1..j); look for the ')' at j or later */
  function ScanClose(s: string, q: nat, j: nat): (r: Option<nat>)
    requires q + 2 <= j <= |s|
    requires NoTerminator(s, q + 1, j)
    ensures r.Some? ==> j <= r.value < |s| && s[r.value] == ')' && NoTerminator(s, q + 1, r.value)
    ensures r.Some? ==> forall c :: j <= c < r.value ==> s[c] != ')'
    ensures r.None? ==> forall c :: j <= c < |s| && s[c] == ')' ==> !NoTerminator(s, q + 1, c)
    decreases |s| - j
  {
    if j == |s| then None
    else if s[j] == ')' then Some(j)
    else if IsLineTerminator(s[j]) then None
    else ScanClose(s, q, j + 1)
  }

  /** The ')' that closes the second group opened after the '(' at `q` */
  function CloseOf(s: string, q: nat): (r: Option<nat>)
    ensures r.Some? ==> q + 2 <= r.value < |s| && s[r.value] == ')' && NoTerminator(s, q + 1, r.value)
    ensures r.Some? ==> forall c :: q + 2 <= c < r.value ==> s[c] != ')'
    ensures r.None? ==> forall c :: q + 2 <= c < |s| && s[c] == ')' ==> !NoTerminator(s, q + 1, c)
  {
    if q + 2 <= |s| && !IsLineTerminator(s[q + 1]) then ScanClose(s, q, q + 2) else None
  }

  /** The first group has consumed s[p..q); look for its '(' at q or later */
  function ScanOpen(s: string, p: nat, q: nat): (r: Option<Match>)
    requires p < q <= |s|
    requires NoTerminator(s, p, q)
    ensures r.Some? ==> r.value.start == p && q <= r.value.open && IsMatch(s, p, r.value.open, r.value.close)
    decreases |s| - q
  {
    if q == |s| then None
    else if s[q] == '(' && CloseOf(s, q).Some? then Some(Match(p, q, CloseOf(s, q).value))
    else if IsLineTerminator(s[q]) then None
    else ScanOpen(s, p, q + 1)
  }

  /** The scan for '(' stops at the first position that admits a ')', and fails
      only when no position from `q` on does */
  lemma {:induction false} ScanOpenSpec(s: string, p: nat, q: nat)
    requires p < q <= |s|
    requires NoTerminator(s, p, q)
    ensures var r := ScanOpen(s, p, q);
      && (r.Some? ==> forall c' :: IsMatch(s, p, r.value.open, c') ==> r.value.close <= c')
      && (r.Some? ==> forall q', c' :: q <= q' < r.value.open ==> !IsMatch(s, p, q', c'))
      && (r.None? ==> forall q', c' :: q <= q' ==> !IsMatch(s, p, q', c'))
    decreases |s| - q
  {
    if q < |s| && !(s[q] == '(' && CloseOf(s, q).Some?) && !IsLineTerminator(s[q]) {
      ScanOpenSpec(s, p, q + 1);
    }
  }

  /** The match that starts exactly at `p`, if any */
  function MatchAt(s: string, p: nat): (r: Option<Match>)
    ensures r.Some? ==> r.value.start == p && IsMatch(s, p, r.value.open, r.value.close)
  {
    if p < |s| && !IsLineTerminator(s[p]) then ScanOpen(s, p, p + 1) else None
  }

  /** At `p` the pattern yields the match the lazy quantifiers choose, or fails
      because nothing matches there */
  lemma MatchAtSpec(s: string, p: nat)
    ensures MatchAt(s, p).Some? ==> IsChosen(s, p, MatchAt(s, p).value.open, MatchAt(s, p).value.close)
    ensures MatchAt(s, p).None? ==> forall q, c :: !IsMatch(s, p, q, c)
  {
    if p < |s| && !IsLineTerminator(s[p]) {
      ScanOpenSpec(s, p, p + 1);
    }
  }

  /** One call of `exec` with `lastIndex == from` */
  function NextMatch(s: string, from: nat): (r: Option<Match>)
    ensures r.Some? ==> from <= r.value.start && IsMatch(s, r.value.start, r.value.open, r.value.close)
    decreases |s| - from
  {
    if from >= |s| then None
    else match MatchAt(s, from)
      case Some(m) => Some(m)
      case None => NextMatch(s, from + 1)
  }

  /** `exec` finds the leftmost position where the pattern matches, and there the
      match the lazy quantifiers choose; it fails only when no position from
      `from` on matches */
  lemma {:induction false} NextMatchSpec(s: string, from: nat)
    ensures var r := NextMatch(s, from);
      && (r.Some? ==> IsChosen(s, r.value.start, r.value.open, r.value.close))
      && (r.Some? ==> forall p, q, c :: from <= p < r.value.start ==> !IsMatch(s, p, q, c))
      && (r.None? ==> forall p, q, c :: from <= p ==> !IsMatch(s, p, q, c))
    decreases |s| - from
  {
    MatchAtSpec(s, from);
    if from < |s| && MatchAt(s, from).None? {
      NextMatchSpec(s, from + 1);
    }
  }

  /** `ms` is a run of delimited spans as `exec` returns them one after another
      from `lastIndex == from`: each at or after the cursor, the cursor then moving
      to just past its ')' */
  predicate Chain(s: string, from: nat, ms: seq<Match>)
    ensures Chain(s, from, ms) ==> from <= EndOf(from, ms) <= |s|
    ensures Chain(s, from, ms) ==>
      forall i :: 0 <= i < |ms| ==> from <= ms[i].start && Delimited(s, ms[i])
    decreases ms
  {
    if ms == [] then from <= |s|
    else
      && from <= ms[0].start
      && Delimited(s, ms[0])
      && Chain(s, ms[0].close + 1, ms[1..])
  }

  /** Each match of the run starts exactly at the cursor */
  predicate Tight(from: nat, ms: seq<Match>)
    decreases ms
  {
    ms == [] || (ms[0].start == from && Tight(ms[0].close + 1, ms[1..]))
  }

  /** The cursor after the run */
  function EndOf(from: nat, ms: seq<Match>): nat
    decreases ms
  {
    if ms == [] then from else EndOf(ms[0].close + 1, ms[1..])
  }

  /** Every match the global `exec` loop finds, starting with `lastIndex == from`,
      in order and without overlap */
  function AllMatches(s: string, from: nat): (ms: seq<Match>)
    ensures forall i :: 0 <= i < |ms| ==> from <= ms[i].start && IsMatch(s, ms[i].start, ms[i].open, ms[i].close)
    ensures forall i :: 0 <= i < |ms| - 1 ==> ms[i].close < ms[i + 1].start
    ensures from <= |s| ==> Chain(s, from, ms)
    decreases |s| - from
  {
    match NextMatch(s, from)
    case None => []
    case Some(m) => [m] + AllMatches(s, m.close + 1)
  }

  /** The input has no line terminator, so '.' matches everywhere */
  predicate SingleLine(s: string) {
    NoTerminator(s, 0, |s|)
  }

  /** On single-line input `exec` either matches at `lastIndex` or finds nothing at all:
      a match further right would also be a match at `from`. */
  lemma {:induction false} MatchStartsAtCursor(s: string, from: nat)
    requires SingleLine(s)
    ensures NextMatch(s, from).Some? ==> NextMatch(s, from).value.start == from
  {
    NextMatchSpec(s, from);
    if NextMatch(s, from).Some? {
      var m := NextMatch(s, from).value;
      if m.start > from {
        assert IsMatch(s, m.start, m.open, m.close);
        assert IsMatch(s, from, m.open, m.close);
      }
    }
  }

  /** On single-line input the matches follow one another without gaps */
  lemma {:induction false} SingleLineIsTight(s: string, from: nat)
    requires SingleLine(s)
    ensures Tight(from, AllMatches(s, from))
    decreases |s| - from
  {
    MatchStartsAtCursor(s, from);
    match NextMatch(s, from)
    case None =>
    case Some(m) =>
      SingleLineIsTight(s, m.close + 1);
      assert AllMatches(s, from)[1..] == AllMatches(s, m.close + 1);
  }

  /** Where the `exec` loop started at `from` leaves `lastIndex` before its final,
      failing call: the end of the last match, or `from` if there is none */
  function MatchedEnd(s: string, from: nat): (e: nat) {
    EndOf(from, AllMatches(s, from))
  }

  /** The `exec` loop stops because no match follows the matched end */
  lemma {:induction false} MatchedEndIsFinal(s: string, from: nat)
    ensures NextMatch(s, MatchedEnd(s, from)).None?
    decreases |s| - from
  {
    match NextMatch(s, from)
    case None =>
    case Some(m) =>
      MatchedEndIsFinal(s, m.close + 1);
      assert AllMatches(s, from) == [m] + AllMatches(s, m.close + 1);
      assert MatchedEnd(s, from) == MatchedEnd(s, m.close + 1);
  }
}
