/**
 `extractChineseFromNotation`, shared by the word list card and the result-screen
 chip: `notation.replace(/\(([^)]+)\)/g, '')`, which deletes every parenthesised
 group with a non-empty body that contains no ')', so "床(chuáng)前(qián)"
 shows as "床前"; and the two components' choice of what word to display.
 */
module NotationStrip {
  import opened Optional
  import opened Subsequence

  /** The first ')' at or after `from` */
  function FirstClose(s: string, from: nat): (r: Option<nat>)
    ensures r.Some? ==> from <= r.value < |s| && s[r.value] == ')'
    ensures r.Some? ==> forall k :: from <= k < r.value ==> s[k] != ')'
    ensures r.None? ==> forall k :: from <= k < |s| ==> s[k] != ')'
    decreases |s| - from
  {
    if from >= |s| then None else if s[from] == ')' then Some(from) else FirstClose(s, from + 1)
  }

  /** The pattern matches at the head of `s`: '(' and then, at least two positions on,
      the first ')' (the greedy body `[^)]+` cannot pass a ')' and needs one character) */
  predicate GroupAtHead(s: string) {
    |s| > 0 && s[0] == '(' && FirstClose(s, 1).Some? && FirstClose(s, 1).value >= 2
  }

  /** The global replacement: a group at the scan position is deleted and the scan
      resumes after its ')'; otherwise one character is kept and the scan moves on */
  function Extract(s: string): (r: string)
    ensures |r| <= |s|
    ensures forall x :: x in r ==> x in s
    decreases |s|
  {
    if s == [] then []
    else if GroupAtHead(s) then Extract(s[FirstClose(s, 1).value + 1..])
    else [s[0]] + Extract(s[1..])
  }

  /** Reference definition of a removable group: '(' at `i`, ')' at `j` at least two
      positions later, and no ')' in between */
  predicate GroupAt(s: string, i: nat, j: nat) {
    && i + 2 <= j < |s| && s[i] == '(' && s[j] == ')'
    && forall k :: i < k < j ==> s[k] != ')'
  }

  ghost predicate HasGroup(s: string) {
    exists i: nat, j: nat :: GroupAt(s, i, j)
  }

  lemma GroupShifts(s: string, i: nat, j: nat)
    requires |s| > 0 && GroupAt(s[1..], i, j)
    ensures GroupAt(s, i + 1, j + 1)
  {
    assert forall k :: i + 1 < k < j + 1 ==> s[k] == s[1..][k - 1];
  }

  /** A string without a removable group comes back unchanged */
  lemma {:induction false} NoGroupUnchanged(s: string)
    requires !HasGroup(s)
    ensures Extract(s) == s
    decreases |s|
  {
    if s != [] {
      if GroupAtHead(s) {
        assert GroupAt(s, 0, FirstClose(s, 1).value);
      }
      if HasGroup(s[1..]) {
        var i: nat, j: nat :| GroupAt(s[1..], i, j);
        GroupShifts(s, i, j);
      }
      NoGroupUnchanged(s[1..]);
    }
  }

  /** A string with a removable group loses at least one character */
  lemma {:induction false} GroupShortens(s: string)
    requires HasGroup(s)
    ensures |Extract(s)| < |s|
    decreases |s|
  {
    var i: nat, j: nat :| GroupAt(s, i, j);
    if !GroupAtHead(s) {
      assert i > 0;
      assert GroupAt(s[1..], i - 1, j - 1);
      GroupShortens(s[1..]);
    }
  }

  /** Unchanged exactly when there is nothing to remove */
  lemma UnchangedIffNoGroup(s: string)
    ensures Extract(s) == s <==> !HasGroup(s)
  {
    if HasGroup(s) {
      GroupShortens(s);
    } else {
      NoGroupUnchanged(s);
    }
  }

  /** Every '(' is directly followed by ')' or has no ')' after it, so no group can match */
  predicate Bare(t: string) {
    forall i :: 0 <= i < |t| && t[i] == '(' ==> (i + 1 < |t| && t[i + 1] == ')') || ')' !in t[i + 1..]
  }

  lemma BareHasNoGroup(t: string)
    requires Bare(t)
    ensures !HasGroup(t)
  {
    forall i: nat, j: nat | i + 2 <= j < |t| && t[i] == '(' && t[j] == ')'
      ensures exists k :: i < k < j && t[k] == ')'
    {
      assert t[j] in t[i + 1..];
      assert t[i + 1] == ')';
    }
  }

  /** The output never holds a removable group */
  lemma {:induction false} ExtractIsBare(s: string)
    ensures Bare(Extract(s))
    decreases |s|
  {
    if s != [] {
      if GroupAtHead(s) {
        ExtractIsBare(s[FirstClose(s, 1).value + 1..]);
      } else {
        var rest := Extract(s[1..]);
        ExtractIsBare(s[1..]);
        var t := [s[0]] + rest;
        assert Extract(s) == t;
        if s[0] == '(' {
          if FirstClose(s, 1).Some? {
            assert s[1..][0] == ')';
            assert rest == [')'] + Extract(s[1..][1..]);
          } else {
            assert forall x :: x in s[1..] ==> x != ')';
          }
        }
        forall i | 1 <= i < |t| && t[i] == '('
          ensures (i + 1 < |t| && t[i + 1] == ')') || ')' !in t[i + 1..]
        {
          assert t[i] == rest[i - 1];
          assert t[i + 1..] == rest[i..];
        }
      }
    }
  }

  /** Stripping twice is stripping once */
  lemma ExtractIdempotent(s: string)
    ensures Extract(Extract(s)) == Extract(s)
  {
    ExtractIsBare(s);
    BareHasNoGroup(Extract(s));
    NoGroupUnchanged(Extract(s));
  }

  /** Text with no '(' passes through unchanged, in front of whatever follows it */
  lemma {:induction false} ExtractPlainPrefix(a: string, s: string)
    requires '(' !in a
    ensures Extract(a + s) == a + Extract(s)
    decreases |a|
  {
    if a != [] {
      var t := a + s;
      assert t[0] == a[0] && !GroupAtHead(t);
      assert t[1..] == a[1..] + s;
      assert '(' !in a[1..] by {
        assert forall k :: 0 <= k < |a[1..]| ==> a[1..][k] == a[k + 1];
      }
      ExtractPlainPrefix(a[1..], s);
      calc {
        Extract(t);
        [t[0]] + Extract(t[1..]);
        [a[0]] + (a[1..] + Extract(s));
        ([a[0]] + a[1..]) + Extract(s);
        { assert [a[0]] + a[1..] == a; }
        a + Extract(s);
      }
    } else {
      assert a + s == s && a + Extract(s) == Extract(s);
    }
  }

  /** The kept characters appear in the output in their original order */
  lemma {:induction false} ExtractIsSubsequence(s: string)
    ensures IsSubsequence(Extract(s), s)
    decreases |s|
  {
    if s != [] {
      if GroupAtHead(s) {
        var j := FirstClose(s, 1).value;
        ExtractIsSubsequence(s[j + 1..]);
        SubsequenceDropPrefix(Extract(s), s, j + 1);
      } else {
        ExtractIsSubsequence(s[1..]);
        assert ([s[0]] + Extract(s[1..]))[1..] == Extract(s[1..]);
      }
    }
  }

  /** An empty "()" is not a group: it survives */
  lemma EmptyParensKept(rest: string)
    ensures Extract("()" + rest) == "()" + Extract(rest)
  {
    var s := "()" + rest;
    assert !GroupAtHead(s);
    assert s[1..] == ")" + rest;
    assert s[1..][1..] == rest;
  }

  /** A '(' with no ')' after it survives */
  lemma UnclosedKept(rest: string)
    requires ')' !in rest
    ensures Extract("(" + rest) == "(" + Extract(rest)
  {
    var s := "(" + rest;
    assert s[1..] == rest;
    assert forall k :: 1 <= k < |s| ==> s[k] == rest[k - 1];
  }

  /** One character followed by its reading: the reading goes, the character stays */
  lemma StripUnit(c: char, p: string, rest: string)
    requires c != '(' && p != [] && ')' !in p
    ensures Extract([c, '('] + p + [')'] + rest) == [c] + Extract(rest)
  {
    var s := [c, '('] + p + [')'] + rest;
    var t := s[1..];
    assert t == ['('] + p + [')'] + rest;
    assert forall k :: 1 <= k < |p| + 1 ==> t[k] == p[k - 1] && p[k - 1] in p;
    assert t[|p| + 1] == ')';
    assert FirstClose(t, 1) == Some(|p| + 1);
    assert t[|p| + 2..] == rest;
  }

  lemma FrontStripped()
    ensures Extract("前(qián)") == "前"
  {
    StripUnit('前', "qián", "");
    assert "前(qián)" == ['前', '('] + "qián" + [')'] + "";
  }

  lemma BedShape()
    ensures "床(chuáng)前(qián)" == ['床', '('] + "chuáng" + [')'] + "前(qián)"
  {
  }

  lemma BedStripped()
    ensures Extract("床(chuáng)前(qián)") == "床" + Extract("前(qián)")
  {
    BedShape();
    StripUnit('床', "chuáng", "前(qián)");
  }

  /** "床(chuáng)前(qián)" is shown as "床前" */
  lemma BedFrontExample()
    ensures Extract("床(chuáng)前(qián)") == "床前"
  {
    FrontStripped();
    BedStripped();
  }

  // ---------------------------------------------------------------- display choice

  /** `word.notation` is truthy: present and not empty */
  predicate HasNotation(notation: Option<string>) {
    notation.Some? && notation.value != ""
  }

  /** The word list card: `zh` with a notation shows it stripped; `romaji` and `hapin`
      show the notation itself (absent when the word has none); every other case the name */
  function CardDisplayWord(lang: string, name: string, notation: Option<string>): Option<string>
  {
    if lang == "zh" && HasNotation(notation) then Some(Extract(notation.value))
    else if lang in ["romaji", "hapin"] then notation
    else Some(name)
  }

  /** The result-screen chip: the stripped notation for `zh` with a notation, else the name */
  function ChipDisplayWord(lang: string, name: string, notation: Option<string>): string
  {
    if lang == "zh" && HasNotation(notation) then Extract(notation.value) else name
  }

  /** The card and the chip show the same word except in `romaji` and `hapin`, where
      the card shows the notation and the chip the name */
  lemma CardAndChipAgree(lang: string, name: string, notation: Option<string>)
    ensures lang != "romaji" && lang != "hapin" ==> CardDisplayWord(lang, name, notation) == Some(ChipDisplayWord(lang, name, notation))
    ensures lang == "romaji" || lang == "hapin" ==>
      CardDisplayWord(lang, name, notation) == notation && ChipDisplayWord(lang, name, notation) == name
  {
  }

  /** Where the chip strips the notation, what it shows has no reading group left and
      is the notation with characters deleted, nothing reordered */
  lemma ChipShowsNoReadings(lang: string, name: string, notation: Option<string>)
    requires lang == "zh" && HasNotation(notation)
    ensures !HasGroup(ChipDisplayWord(lang, name, notation))
    ensures IsSubsequence(ChipDisplayWord(lang, name, notation), notation.value)
  {
    ExtractIsBare(notation.value);
    BareHasNoGroup(Extract(notation.value));
    ExtractIsSubsequence(notation.value);
  }

  /** Whatever the language, the displayed word is never longer than its source */
  lemma DisplayNeverLonger(lang: string, name: string, notation: Option<string>)
    ensures var r := ChipDisplayWord(lang, name, notation);
      |r| <= if lang == "zh" && HasNotation(notation) then |notation.value| else |name|
  {
  }
}
