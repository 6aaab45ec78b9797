/** The server's smart keyword insertion (`insertKeyword` and `capitalize`): the
    keyword is appended to the first sentence longer than 30 characters. */
module Insertion {
  import opened Wrappers
  import opened JsString

  /** Length a sentence must exceed to be chosen as the insertion target. */
  const TargetMinLength := 30

  /** The characters of the class `[.!?]`. */
  predicate IsTerminator(c: char) {
    c == '.' || c == '!' || c == '?'
  }

  /** A match of `/[^.!?]+[.!?]/`: a non-empty run without terminators, then one terminator. */
  predicate IsSentence(m: string) {
    |m| >= 2 && IsTerminator(m[|m| - 1]) && forall i :: 0 <= i < |m| - 1 ==> !IsTerminator(m[i])
  }

  /** The greedy `[^.!?]+` part: the number of leading non-terminators. */
  function RunLength(s: string): (n: nat)
    ensures n <= |s|
    ensures forall i :: 0 <= i < n ==> !IsTerminator(s[i])
    ensures n < |s| ==> IsTerminator(s[n])
    decreases |s|
  {
    if s == [] || IsTerminator(s[0]) then 0 else 1 + RunLength(s[1..])
  }

  /** The run length is determined by where the first terminator is. */
  lemma {:induction false} RunLengthUnique(s: string, n: nat)
    requires n <= |s|
    requires forall i :: 0 <= i < n ==> !IsTerminator(s[i])
    requires n < |s| ==> IsTerminator(s[n])
    ensures RunLength(s) == n
    decreases |s|
  {
    if n > 0 {
      assert !IsTerminator(s[0]);
      assert forall i :: 0 <= i < n - 1 ==> s[1..][i] == s[i + 1];
      RunLengthUnique(s[1..], n - 1);
    }
  }

  /** `s.match(/[^.!?]+[.!?]/g)`, with a `null` result read as the empty list. A
      match is tried at each position; a terminator that does not follow a
      non-terminator starts no match and is skipped, and a run that reaches the
      end of the text without a terminator yields nothing. */
  function Matches(s: string): (r: seq<string>)
    ensures forall i :: 0 <= i < |r| ==> IsSentence(r[i])
    decreases |s|
  {
    if s == [] then []
    else if IsTerminator(s[0]) then Matches(s[1..])
    else
      var n := RunLength(s);
      if n == |s| then [] else [s[..n + 1]] + Matches(s[n + 1..])
  }

  /** Some non-terminator is directly followed by a terminator. */
  predicate HasBoundary(s: string) {
    exists i :: 1 <= i < |s| && !IsTerminator(s[i - 1]) && IsTerminator(s[i])
  }

  /** A leading terminator is never the end of a boundary. */
  lemma BoundaryAfterTerminator(s: string)
    requires s != [] && IsTerminator(s[0])
    ensures HasBoundary(s) <==> HasBoundary(s[1..])
  {
    if HasBoundary(s) {
      var i :| 1 <= i < |s| && !IsTerminator(s[i - 1]) && IsTerminator(s[i]);
      assert s[1..][i - 2] == s[i - 1] && s[1..][i - 1] == s[i];
    }
    if HasBoundary(s[1..]) {
      var i :| 1 <= i < |s| - 1 && !IsTerminator(s[1..][i - 1]) && IsTerminator(s[1..][i]);
      assert s[i] == s[1..][i - 1] && s[i + 1] == s[1..][i];
    }
  }

  /** The regex finds nothing exactly when no non-terminator is directly followed by a terminator. */
  lemma {:induction false} MatchesEmptyIff(s: string)
    ensures Matches(s) == [] <==> !HasBoundary(s)
    decreases |s|
  {
    if s != [] {
      if IsTerminator(s[0]) {
        MatchesEmptyIff(s[1..]);
        BoundaryAfterTerminator(s);
      } else {
        var n := RunLength(s);
        if n < |s| {
          assert n >= 1 && !IsTerminator(s[n - 1]) && IsTerminator(s[n]);
        } else {
          assert forall i :: 0 <= i < |s| ==> !IsTerminator(s[i]);
        }
      }
    }
  }

  /** A well-formed sentence at the start of the text is the first match, and
      matching goes on right after it. */
  lemma MatchesCons(m: string, s: string)
    requires IsSentence(m)
    ensures Matches(m + s) == [m] + Matches(s)
  {
    var u := m + s;
    assert u[0] == m[0];
    RunLengthUnique(u, |m| - 1);
    assert u[..|m|] == m;
    assert u[|m|..] == s;
  }

  /** Terminators that do not follow a non-terminator start no match and are
      skipped; the matches after them are kept. */
  lemma {:induction false} MatchesSkip(t: string, s: string)
    requires forall i :: 0 <= i < |t| ==> IsTerminator(t[i])
    ensures Matches(t + s) == Matches(s)
    decreases |t|
  {
    if t == [] {
      assert t + s == s;
    } else {
      var u := t + s;
      assert u[0] == t[0];
      assert u[1..] == t[1..] + s;
      MatchesSkip(t[1..], s);
    }
  }

  /** The concatenation of a list of texts. */
  function Concat(ss: seq<string>): string
    decreases |ss|
  {
    if ss == [] then [] else ss[0] + Concat(ss[1..])
  }

  /** A text made of well-formed sentences splits back into exactly those sentences. */
  lemma {:induction false} MatchesConcat(ss: seq<string>)
    requires forall i :: 0 <= i < |ss| ==> IsSentence(ss[i])
    ensures Matches(Concat(ss)) == ss
    decreases |ss|
  {
    if ss != [] {
      var m := ss[0];
      var rest := Concat(ss[1..]);
      var s := m + rest;
      assert s[0] == m[0];
      var n := RunLength(s);
      RunLengthUnique(s, |m| - 1);
      assert s[..n + 1] == m;
      assert s[n + 1..] == rest;
      MatchesConcat(ss[1..]);
    }
  }

  /** Text after the last terminator is silently dropped by the regex. */
  lemma {:induction false} TrailingFragmentDropped(s: string, t: string)
    requires forall i :: 0 <= i < |t| ==> !IsTerminator(t[i])
    ensures Matches(s + t) == Matches(s)
    decreases |s|
  {
    if s == [] {
      assert s + t == t;
      if t != [] {
        RunLengthUnique(t, |t|);
      }
    } else {
      var u := s + t;
      assert u[0] == s[0];
      if IsTerminator(s[0]) {
        assert u[1..] == s[1..] + t;
        TrailingFragmentDropped(s[1..], t);
      } else {
        var n := RunLength(s);
        var m := RunLength(u);
        if n < |s| {
          RunLengthUnique(u, n);
          assert u[..m + 1] == s[..n + 1];
          assert u[m + 1..] == s[n + 1..] + t;
          TrailingFragmentDropped(s[n + 1..], t);
        } else {
          RunLengthUnique(u, |u|);
        }
      }
    }
  }

  /** `text.match(/[^.!?]+[.!?]/g) || [text]`: the regex matches, or the whole
      text as the only sentence when there is none. */
  function Sentences(text: string): (r: seq<string>)
    ensures |r| >= 1
    ensures HasBoundary(text) ==> forall i :: 0 <= i < |r| ==> IsSentence(r[i])
    ensures !HasBoundary(text) ==> r == [text]
  {
    MatchesEmptyIff(text);
    var m := Matches(text);
    if m == [] then [text] else m
  }

  /** `ss.findIndex(s => s.length > 30)`: the first sentence longer than 30
      characters, or -1 when there is none. */
  function FindLongSentence(ss: seq<string>): (r: int)
    ensures -1 <= r < |ss|
    ensures r == -1 <==> forall i :: 0 <= i < |ss| ==> |ss[i]| <= TargetMinLength
    ensures 0 <= r ==> |ss[r]| > TargetMinLength && forall i :: 0 <= i < r ==> |ss[i]| <= TargetMinLength
    decreases |ss|
  {
    if ss == [] then -1
    else if |ss[0]| > TargetMinLength then 0
    else
      var k := FindLongSentence(ss[1..]);
      assert forall i :: 1 <= i < |ss| ==> ss[i] == ss[1..][i - 1];
      if k == -1 then -1 else k + 1
  }

  /** JavaScript's `x || fallback` on a number (NaN aside): only 0 is falsy. */
  function OrElse(x: int, fallback: int): int {
    if x != 0 then x else fallback
  }

  /** `capitalize(str)`: upper-case the first character, keep the rest. */
  function Capitalize(str: string): (r: string)
    ensures |r| == |str|
    ensures forall i :: 1 <= i < |str| ==> r[i] == str[i]
    ensures str != [] ==> !IsLower(r[0])
    ensures Lower(r) == Lower(str)
  {
    if str == [] then [] else [UpperChar(str[0])] + str[1..]
  }

  /** No two adjacent whitespace characters. */
  predicate NoDoubleSpace(s: string) {
    forall i :: 0 <= i < |s| - 1 ==> !(IsSpace(s[i]) && IsSpace(s[i + 1]))
  }

  /** The number of leading whitespace characters. */
  function SpaceRun(s: string): (n: nat)
    ensures n <= |s|
    ensures forall i :: 0 <= i < n ==> IsSpace(s[i])
    ensures n < |s| ==> !IsSpace(s[n])
    decreases |s|
  {
    if s == [] || !IsSpace(s[0]) then 0 else 1 + SpaceRun(s[1..])
  }

  /** The whitespace run is determined by where the first non-whitespace character is. */
  lemma {:induction false} SpaceRunUnique(s: string, n: nat)
    requires n <= |s|
    requires forall i :: 0 <= i < n ==> IsSpace(s[i])
    requires n < |s| ==> !IsSpace(s[n])
    ensures SpaceRun(s) == n
    decreases |s|
  {
    if n > 0 {
      assert IsSpace(s[0]);
      assert forall i :: 0 <= i < n - 1 ==> s[1..][i] == s[i + 1];
      SpaceRunUnique(s[1..], n - 1);
    }
  }

  /** `s.replace(/\s{2,}/g, " ")`: every run of two or more whitespace characters
      becomes one space; a lone whitespace character is kept as it is. */
  function Collapse(s: string): (r: string)
    ensures NoDoubleSpace(r)
    ensures |r| <= |s|
    ensures s != [] && !IsSpace(s[0]) ==> r != [] && r[0] == s[0]
    decreases |s|
  {
    if s == [] then []
    else if !IsSpace(s[0]) then [s[0]] + Collapse(s[1..])
    else
      var n := SpaceRun(s);
      (if n >= 2 then " " else [s[0]]) + Collapse(s[n..])
  }

  /** A non-whitespace character is copied and the replace goes on after it. */
  lemma CollapseCons(c: char, s: string)
    requires !IsSpace(c)
    ensures Collapse([c] + s) == [c] + Collapse(s)
  {
    assert ([c] + s)[1..] == s;
  }

  /** What the replace does to one whitespace run `w` that ends where the text ends
      or where a non-whitespace character starts: a run of two or more characters
      becomes a single space, and a lone whitespace character is kept. */
  lemma CollapseRun(w: string, rest: string)
    requires w != [] && forall i :: 0 <= i < |w| ==> IsSpace(w[i])
    requires rest == [] || !IsSpace(rest[0])
    ensures Collapse(w + rest) == (if |w| >= 2 then " " else w) + Collapse(rest)
  {
    var s := w + rest;
    assert s[0] == w[0];
    SpaceRunUnique(s, |w|);
    assert s[|w|..] == rest;
  }

  /** A text without double whitespace is left alone by the collapse. */
  lemma {:induction false} CollapseFixes(s: string)
    requires NoDoubleSpace(s)
    ensures Collapse(s) == s
    decreases |s|
  {
    if s != [] {
      assert NoDoubleSpace(s[1..]) by {
        forall i | 0 <= i < |s| - 2 ensures !(IsSpace(s[1..][i]) && IsSpace(s[1..][i + 1])) {
          assert s[1..][i] == s[i + 1] && s[1..][i + 1] == s[i + 2];
        }
      }
      CollapseFixes(s[1..]);
      if IsSpace(s[0]) {
        assert SpaceRun(s) == 1 by {
          if |s| > 1 { assert !IsSpace(s[1]); }
        }
      }
      assert s == [s[0]] + s[1..];
    }
  }

  /** Collapsing twice is collapsing once. */
  lemma CollapseIdempotent(s: string)
    ensures Collapse(Collapse(s)) == Collapse(s)
  {
    CollapseFixes(Collapse(s));
  }

  /** The collapse works independently on either side of a non-whitespace character. */
  lemma {:induction false} CollapseConcat(a: string, b: string)
    requires b != [] && !IsSpace(b[0])
    ensures Collapse(a + b) == Collapse(a) + Collapse(b)
    decreases |a|
  {
    if a == [] {
      assert a + b == b;
    } else {
      var s := a + b;
      assert s[0] == a[0];
      if !IsSpace(a[0]) {
        assert s[1..] == a[1..] + b;
        CollapseConcat(a[1..], b);
      } else {
        var n := SpaceRun(s);
        var m := SpaceRun(a);
        SpaceRunUnique(s, m);
        assert s[n..] == a[m..] + b;
        CollapseConcat(a[m..], b);
      }
    }
  }

  /** Why a real insertion can fail. */
  datatype InsertError =
    /** No sentence is longer than 30 characters, so the target index stays -1 and
        `sentences[-1].trim()` throws a TypeError at line 75. */
    NoLongSentence

  /** The keyword is absent (`!keyword`) or already present case-insensitively. */
  predicate AlreadyPresent(text: string, keyword: string) {
    keyword == [] || Contains(Lower(text), Lower(keyword))
  }

  /** Lines 71-73: the trimmed keyword, capitalised when the target is sentence 0. */
  function InsertText(keyword: string, idx: nat): string {
    var k := Trim(keyword);
    if idx == 0 then Capitalize(k) else k
  }

  /** Line 75: the new target sentence. */
  function Extend(sentence: string, insertText: string): string {
    Trim(sentence) + " " + insertText + "."
  }

  /** Lines 71-77 for a given target: extend the target, join with spaces, collapse. */
  function Rewrite(ss: seq<string>, idx: nat, keyword: string): string
    requires idx < |ss|
  {
    Collapse(Join(ss[idx := Extend(ss[idx], InsertText(keyword, idx))], " "))
  }

  /** The text handed to `capitalize` and appended: trimmed, so it starts with a
      non-whitespace character, and capitalising keeps it free of double whitespace. */
  lemma InsertTextShape(keyword: string, idx: nat)
    requires Trim(keyword) != [] && NoDoubleSpace(Trim(keyword))
    ensures InsertText(keyword, idx) != [] && !IsSpace(InsertText(keyword, idx)[0])
    ensures NoDoubleSpace(InsertText(keyword, idx))
    ensures Lower(InsertText(keyword, idx)) == Lower(Trim(keyword))
  {
    var k := Trim(keyword);
    var x := InsertText(keyword, idx);
    var i, j := TrimIsSlice(keyword);
    assert !IsSpace(k[0]);
    forall n | 0 <= n < |x| - 1 ensures !(IsSpace(x[n]) && IsSpace(x[n + 1])) {
      assert IsSpace(x[n]) == IsSpace(k[n]) && x[n + 1] == k[n + 1];
    }
  }

  /** A piece without double whitespace, starting with non-whitespace and followed
      by non-whitespace, passes through the collapse untouched. */
  lemma CollapseAround(a: string, x: string, b: string)
    requires x != [] && !IsSpace(x[0]) && NoDoubleSpace(x)
    requires b != [] && !IsSpace(b[0])
    ensures Collapse(a + x + b) == Collapse(a) + x + Collapse(b)
  {
    assert a + x + b == a + (x + b);
    CollapseConcat(a, x + b);
    CollapseConcat(x, b);
    CollapseFixes(x);
  }

  /** Lower-cased text contains the lower-cased form of each of its pieces. */
  lemma LowerContains(p: string, x: string, q: string)
    ensures Contains(Lower(p + x + q), Lower(x))
  {
    LowerConcat(p, x);
    LowerConcat(p + x, q);
    ContainsMiddle(Lower(p), Lower(x), Lower(q));
  }

  /** The joined text around the extended target sentence. */
  lemma JoinAroundTarget(ss: seq<string>, idx: nat, x: string) returns (a: string, b: string)
    requires idx < |ss|
    ensures Join(ss[idx := Extend(ss[idx], x)], " ") == a + x + b
    ensures b != [] && b[0] == '.'
  {
    var before, after := JoinSplit(ss[idx := Extend(ss[idx], x)], " ", idx);
    a := before + Trim(ss[idx]) + " ";
    b := "." + after;
  }

  /** The rewritten text has no double whitespace and contains the trimmed keyword,
      case-insensitively, as long as the keyword itself has no double whitespace. */
  lemma RewriteContainsKeyword(ss: seq<string>, idx: nat, keyword: string)
    requires idx < |ss|
    requires NoDoubleSpace(Trim(keyword))
    ensures NoDoubleSpace(Rewrite(ss, idx, keyword))
    ensures Contains(Lower(Rewrite(ss, idx, keyword)), Lower(Trim(keyword)))
  {
    var r := Rewrite(ss, idx, keyword);
    if Trim(keyword) == [] {
      assert Lower(Trim(keyword)) <= Lower(r);
    } else {
      var x := InsertText(keyword, idx);
      InsertTextShape(keyword, idx);
      var a, b := JoinAroundTarget(ss, idx, x);
      CollapseAround(a, x, b);
      LowerContains(Collapse(a), x, Collapse(b));
    }
  }

  /** `insertKeyword(text, keyword)` as written. */
  function InsertKeyword(text: string, keyword: string): (r: Result<string, InsertError>)
    ensures AlreadyPresent(text, keyword) ==> r == Success(text)
    ensures r.Failure? <==>
      !AlreadyPresent(text, keyword) && forall i :: 0 <= i < |Sentences(text)| ==> |Sentences(text)[i]| <= TargetMinLength
  {
    if AlreadyPresent(text, keyword) then Success(text)
    else
      var sentences := Sentences(text);
      var targetIndex := OrElse(FindLongSentence(sentences), 0);
      if targetIndex < 0 then Failure(NoLongSentence)
      else Success(Rewrite(sentences, targetIndex, keyword))
  }

  /** A real insertion targets the first sentence longer than 30 characters,
      replaces it by its trimmed text, a space, the trimmed keyword (capitalised
      only at sentence 0) and a period, and keeps every other sentence. */
  lemma InsertTarget(text: string, keyword: string) returns (idx: nat, ss': seq<string>)
    requires !AlreadyPresent(text, keyword)
    ensures InsertKeyword(text, keyword).Success? ==>
      && idx < |Sentences(text)| && |Sentences(text)[idx]| > TargetMinLength
      && (forall i :: 0 <= i < idx ==> |Sentences(text)[i]| <= TargetMinLength)
      && |ss'| == |Sentences(text)|
      && (forall i :: 0 <= i < |ss'| && i != idx ==> ss'[i] == Sentences(text)[i])
      && ss'[idx] == Trim(Sentences(text)[idx]) + " "
           + (if idx == 0 then Capitalize(Trim(keyword)) else Trim(keyword)) + "."
      && InsertKeyword(text, keyword) == Success(Collapse(Join(ss', " ")))
  {
    var ss := Sentences(text);
    var found := FindLongSentence(ss);
    if found < 0 {
      idx, ss' := 0, ss;
    } else {
      idx := found;
      ss' := ss[idx := Extend(ss[idx], InsertText(keyword, idx))];
    }
  }

  /** The result of a real insertion contains no run of two or more whitespace
      characters and contains the keyword, so inserting the same keyword again
      changes nothing. */
  lemma InsertIdempotent(text: string, keyword: string)
    requires Trim(keyword) == keyword && NoDoubleSpace(keyword)
    ensures InsertKeyword(text, keyword).Success? && !AlreadyPresent(text, keyword) ==>
      NoDoubleSpace(InsertKeyword(text, keyword).value)
    ensures InsertKeyword(text, keyword).Success? ==>
      InsertKeyword(InsertKeyword(text, keyword).value, keyword) == InsertKeyword(text, keyword)
  {
    if !AlreadyPresent(text, keyword) {
      var ss := Sentences(text);
      var found := FindLongSentence(ss);
      if found >= 0 {
        RewriteContainsKeyword(ss, found, keyword);
      }
    }
  }

  /** `insertKeyword` rejects every text whose sentences are all short: here "Hi."
      with the keyword "fox". */
  lemma ShortTextInsertFails()
    ensures InsertKeyword("Hi.", "fox") == Failure(NoLongSentence)
  {
    assert Lower("Hi.") == "hi.";
    assert Lower("fox") == "fox";
    assert !Contains("hi.", "fox") by {
      assert "hi."[1..] == "i.";
      assert "fox"[0] != "hi."[0];
      ContainsLonger("i.", "fox");
    }
    assert RunLength("Hi.") == 2 by {
      assert "Hi."[1..] == "i." && "i."[1..] == ".";
    }
    assert Matches("Hi.") == ["Hi."] by {
      assert "Hi."[..3] == "Hi." && "Hi."[3..] == [];
    }
  }

  /** The evidently intended `insertKeyword`: with no long sentence the keyword
      goes into sentence 0 instead of throwing. */
  function InsertKeywordFallback(text: string, keyword: string): (r: string)
    ensures AlreadyPresent(text, keyword) ==> r == text
    ensures !AlreadyPresent(text, keyword) ==> NoDoubleSpace(r)
    ensures !AlreadyPresent(text, keyword) && NoDoubleSpace(Trim(keyword)) ==>
      Contains(Lower(r), Lower(Trim(keyword)))
  {
    if AlreadyPresent(text, keyword) then text
    else
      var sentences := Sentences(text);
      var found := FindLongSentence(sentences);
      var targetIndex := if found < 0 then 0 else found;
      if NoDoubleSpace(Trim(keyword)) then
        RewriteContainsKeyword(sentences, targetIndex, keyword);
        Rewrite(sentences, targetIndex, keyword)
      else Rewrite(sentences, targetIndex, keyword)
  }

  /** Where the original throws (no sentence longer than 30 characters), the
      corrected insertion targets sentence 0: it becomes its trimmed text, a space,
      the capitalised trimmed keyword and a period, every other sentence is kept,
      and the text is the collapsed space-join of the result. */
  lemma FallbackTarget(text: string, keyword: string) returns (ss': seq<string>)
    requires !AlreadyPresent(text, keyword)
    requires forall i :: 0 <= i < |Sentences(text)| ==> |Sentences(text)[i]| <= TargetMinLength
    ensures |ss'| == |Sentences(text)|
    ensures ss'[0] == Trim(Sentences(text)[0]) + " " + Capitalize(Trim(keyword)) + "."
    ensures forall i :: 1 <= i < |ss'| ==> ss'[i] == Sentences(text)[i]
    ensures InsertKeywordFallback(text, keyword) == Collapse(Join(ss', " "))
  {
    var ss := Sentences(text);
    assert FindLongSentence(ss) < 0;
    ss' := ss[0 := Extend(ss[0], InsertText(keyword, 0))];
  }

  /** The corrected insertion agrees with the original wherever the original succeeds. */
  lemma FallbackAgrees(text: string, keyword: string)
    ensures InsertKeyword(text, keyword).Success? ==>
      InsertKeywordFallback(text, keyword) == InsertKeyword(text, keyword).value
  {
  }
}
