/**
 * The token-list submission of the home page: the page state, the submit handler with
 * its blank-input guard, the parser that turns the input into token ids, the call to the
 * external decoder and the reset handler.
 */
module Home {

  datatype Option<T> = None | Some(value: T)

  /** What the token parser produces: the token ids, or the message of the error it throws. */
  datatype Result<T> = Ok(value: T) | Err(message: string)

  // ------------------------------------------------------------------------------------
  // Characters and strings
  // ------------------------------------------------------------------------------------

  /** The code points JavaScript's `\s` matches and `String.prototype.trim` strips:
      the WhiteSpace and LineTerminator characters of ECMAScript. */
  predicate IsSpace(c: char) {
    var n := c as int;
    (9 <= n <= 13) || n == 0x20 || n == 0xA0 || n == 0x1680
    || (0x2000 <= n <= 0x200A) || n == 0x2028 || n == 0x2029
    || n == 0x202F || n == 0x205F || n == 0x3000 || n == 0xFEFF
  }

  predicate IsDigit(c: char) {
    '0' as int <= c as int <= '9' as int
  }

  predicate NoSpace(s: string) {
    forall i :: 0 <= i < |s| ==> !IsSpace(s[i])
  }

  predicate AllSpace(s: string) {
    forall i :: 0 <= i < |s| ==> IsSpace(s[i])
  }

  /** The index of the first white-space character of `s`, or `|s|` when there is none. */
  function FirstSpace(s: string): (k: nat)
    ensures k <= |s|
  {
    if s == [] || IsSpace(s[0]) then 0 else 1 + FirstSpace(s[1..])
  }

  /** `FirstSpace` finds the first white space: none before it, one at it. */
  lemma {:induction false} FirstSpaceSpec(s: string)
    ensures NoSpace(s[..FirstSpace(s)])
    ensures FirstSpace(s) < |s| ==> IsSpace(s[FirstSpace(s)])
  {
    if s != [] && !IsSpace(s[0]) {
      var k := FirstSpace(s);
      FirstSpaceSpec(s[1..]);
      assert forall i :: 0 < i < k ==> s[..k][i] == s[1..][..k - 1][i - 1];
    }
  }

  /** ... and it is the only index with that property. */
  lemma {:induction false} FirstSpaceIs(s: string, k: nat)
    requires k <= |s| && NoSpace(s[..k])
    requires k < |s| ==> IsSpace(s[k])
    ensures FirstSpace(s) == k
  {
    if k > 0 {
      assert s[..k][0] == s[0];
      assert s[1..][..k - 1] == s[..k][1..];
      FirstSpaceIs(s[1..], k - 1);
    }
  }

  /** `s` without its leading run of white space. */
  function SkipSpaces(s: string): (r: string)
    ensures |r| <= |s|
  {
    if s != [] && IsSpace(s[0]) then SkipSpaces(s[1..]) else s
  }

  /** What `SkipSpaces` removes is a prefix of white space, and what it keeps does not
      start with white space. */
  lemma {:induction false} SkipSpacesSpec(s: string)
    ensures var r := SkipSpaces(s);
      r == s[|s| - |r|..] && AllSpace(s[..|s| - |r|]) && (r != [] ==> !IsSpace(r[0]))
  {
    if s != [] && IsSpace(s[0]) {
      SkipSpacesSpec(s[1..]);
      var r := SkipSpaces(s);
      var m := |s| - |r|;
      assert s[1..][m - 1..] == s[m..];
      assert forall i :: 0 < i < m ==> s[..m][i] == s[1..][..m - 1][i - 1];
    } else {
      assert s[0..] == s;
    }
  }

  /** `s` without its trailing run of white space. */
  function TrimEnd(s: string): (r: string)
    ensures |r| <= |s|
  {
    if s != [] && IsSpace(s[|s| - 1]) then TrimEnd(s[..|s| - 1]) else s
  }

  /** What `TrimEnd` removes is a suffix of white space, and what it keeps does not end
      with white space. */
  lemma {:induction false} TrimEndSpec(s: string)
    ensures var r := TrimEnd(s);
      r == s[..|r|] && AllSpace(s[|r|..]) && (r != [] ==> !IsSpace(r[|r| - 1]))
  {
    if s != [] && IsSpace(s[|s| - 1]) {
      var p := s[..|s| - 1];
      TrimEndSpec(p);
      var r := TrimEnd(s);
      assert p[..|r|] == s[..|r|];
      assert forall i :: |r| <= i < |s| - 1 ==> s[i] == p[|r|..][i - |r|];
      assert forall i :: 0 <= i < |s| - |r| ==> s[|r|..][i] == s[|r| + i];
    } else {
      assert s[..|s|] == s;
    }
  }

  /** `String.prototype.trim`. */
  function Trim(s: string): string {
    TrimEnd(SkipSpaces(s))
  }

  /** `trim` leaves a word without white space alone, gives the empty string exactly for
      blank input, and otherwise leaves no white space at either end. */
  lemma TrimSpec(s: string)
    ensures NoSpace(s) ==> Trim(s) == s
    ensures Trim(s) == [] <==> AllSpace(s)
    ensures Trim(s) != [] ==> !IsSpace(Trim(s)[0]) && !IsSpace(Trim(s)[|Trim(s)| - 1])
  {
    var u := SkipSpaces(s);
    var m := |s| - |u|;
    SkipSpacesSpec(s);
    TrimEndSpec(u);
    var r := TrimEnd(u);
    if u != [] {
      assert r[0] == u[0];
      assert u[0] == s[m];
    } else {
      assert s[..m] == s;
    }
  }

  // ------------------------------------------------------------------------------------
  // Splitting the input into fragments
  // ------------------------------------------------------------------------------------

  /** `s.split(/\s+/)`: the pieces between maximal runs of white space. A run at the very
      start or end of `s` leaves an empty piece there, and `""` splits into `[""]`. */
  function SplitOnWhitespace(s: string): (pieces: seq<string>)
    ensures |pieces| >= 1
    decreases |s|
  {
    var k := FirstSpace(s);
    if k == |s| then [s]
    else [s[..k]] + SplitOnWhitespace(SkipSpaces(s[k + 1..]))
  }

  /** No piece contains white space, and only the first and the last piece can be empty:
      those are the ones a run of white space at the very start or end leaves behind. */
  lemma {:induction false} SplitPieces(s: string)
    ensures forall p :: p in SplitOnWhitespace(s) ==> NoSpace(p)
    ensures var pieces := SplitOnWhitespace(s);
      forall i :: 0 < i < |pieces| - 1 ==> pieces[i] != []
    decreases |s|
  {
    var k := FirstSpace(s);
    FirstSpaceSpec(s);
    if k == |s| {
      assert s[..k] == s;
    } else {
      var rest := SkipSpaces(s[k + 1..]);
      SkipSpacesSpec(s[k + 1..]);
      SplitPieces(rest);
      var tail := SplitOnWhitespace(rest);
      assert forall p :: p in SplitOnWhitespace(s) ==> p == s[..k] || p in tail;
      if |tail| > 1 {
        SplitFirstPiece(rest);
      }
    }
  }

  /** A string that does not start with white space, and splits into more than one piece,
      has a non-empty first piece. */
  lemma SplitFirstPiece(s: string)
    requires s != [] ==> !IsSpace(s[0])
    requires |SplitOnWhitespace(s)| > 1
    ensures SplitOnWhitespace(s)[0] != []
  {
  }

  /** `.filter(t => t.trim())`: the pieces that are not blank, in their order. */
  function KeepNonBlank(pieces: seq<string>): seq<string> {
    if pieces == [] then []
    else (if Trim(pieces[0]) != [] then [pieces[0]] else []) + KeepNonBlank(pieces[1..])
  }

  /** The filter on one piece keeps it exactly when it is not blank. */
  lemma KeepNonBlankOne(t: string)
    ensures KeepNonBlank([t]) == if Trim(t) != [] then [t] else []
  {
    assert [t][1..] == [];
  }

  /** The filter works piece by piece: filtering two lists one after the other gives the
      filtered first list followed by the filtered second, so nothing is reordered, merged
      or repeated. */
  lemma {:induction false} KeepNonBlankAppend(a: seq<string>, b: seq<string>)
    ensures KeepNonBlank(a + b) == KeepNonBlank(a) + KeepNonBlank(b)
  {
    if a == [] {
      assert a + b == b;
    } else {
      assert (a + b)[0] == a[0];
      assert (a + b)[1..] == a[1..] + b;
      KeepNonBlankAppend(a[1..], b);
    }
  }

  /** The filter keeps exactly the pieces that are not blank. */
  lemma {:induction false} KeepNonBlankMembers(pieces: seq<string>)
    ensures forall t :: t in KeepNonBlank(pieces) <==> t in pieces && Trim(t) != []
  {
    if pieces != [] {
      KeepNonBlankMembers(pieces[1..]);
      assert forall t :: t in pieces <==> t == pieces[0] || t in pieces[1..];
    }
  }

  /** The fragments the parser sees: the input split on runs of white space, blank pieces
      dropped. */
  function Fragments(input: string): seq<string> {
    KeepNonBlank(SplitOnWhitespace(input))
  }

  /** Each fragment is non-empty and free of white space. */
  lemma FragmentsAreWords(input: string)
    ensures forall f :: f in Fragments(input) ==> f != [] && NoSpace(f)
  {
    var pieces := SplitOnWhitespace(input);
    SplitPieces(input);
    KeepNonBlankMembers(pieces);
    assert Trim("") == "";
    forall f | f in Fragments(input)
      ensures f != [] && NoSpace(f)
    {
      assert f in pieces && Trim(f) != [];
      assert |Trim(f)| <= |f|;
    }
  }

  lemma FragmentsOfEmpty()
    ensures Fragments("") == []
  {
    assert SplitOnWhitespace("") == [""];
    assert Trim("") == "";
  }

  /** The filter on a list with a known first piece. */
  lemma KeepNonBlankCons(t: string, rest: seq<string>)
    ensures KeepNonBlank([t] + rest)
      == (if Trim(t) != [] then [t] else []) + KeepNonBlank(rest)
  {
    assert ([t] + rest)[0] == t;
    assert ([t] + rest)[1..] == rest;
  }

  /** A leading run of white space, however long, contributes no fragment. */
  lemma FragmentsSkipSpaces(u: string)
    ensures Fragments(u) == Fragments(SkipSpaces(u))
  {
    if u != [] && IsSpace(u[0]) {
      assert FirstSpace(u) == 0;
      var rest := SplitOnWhitespace(SkipSpaces(u[1..]));
      assert SplitOnWhitespace(u) == [u[..0]] + rest;
      assert u[..0] == "";
      assert Trim("") == "";
      KeepNonBlankCons("", rest);
    }
  }

  /** The fragments of a non-empty string: the text before its first white space (unless
      that is empty), then the fragments of what follows that white-space character. */
  lemma FragmentsUnfold(s: string)
    requires s != []
    ensures var k := FirstSpace(s);
      Fragments(s) == (if k == 0 then [] else [s[..k]]) + (if k == |s| then [] else Fragments(s[k + 1..]))
  {
    var k := FirstSpace(s);
    FirstSpaceSpec(s);
    TrimSpec(s[..k]);
    if k == |s| {
      assert s[..k] == s;
      KeepNonBlankCons(s, []);
      assert [s] + [] == [s];
    } else {
      var rest := SplitOnWhitespace(SkipSpaces(s[k + 1..]));
      KeepNonBlankCons(s[..k], rest);
      FragmentsSkipSpaces(s[k + 1..]);
      if k == 0 {
        assert s[..k] == [];
      }
    }
  }

  /** The words of `s` from left to right, as a reference for what splitting and filtering
      compute: the text before the first white space (unless that is empty), then the
      words of what follows that white-space character. */
  function Words(s: string): seq<string>
    decreases |s|
  {
    if s == [] then []
    else
      var k := FirstSpace(s);
      (if k == 0 then [] else [s[..k]]) + (if k == |s| then [] else Words(s[k + 1..]))
  }

  /** Splitting on white space and dropping blank pieces computes exactly the words. */
  lemma {:induction false} FragmentsAreWordsOf(s: string)
    ensures Fragments(s) == Words(s)
    decreases |s|
  {
    if s == [] {
      FragmentsOfEmpty();
    } else {
      var k := FirstSpace(s);
      FragmentsUnfold(s);
      if k < |s| {
        FragmentsAreWordsOf(s[k + 1..]);
      }
    }
  }

  lemma WordsOfWord(w: string)
    requires w != [] && NoSpace(w)
    ensures Words(w) == [w]
  {
    assert w[..|w|] == w;
    FirstSpaceIs(w, |w|);
  }

  /** The first white space comes no later than any white space. */
  lemma {:induction false} FirstSpaceAtMost(s: string, j: nat)
    requires j < |s| && IsSpace(s[j])
    ensures FirstSpace(s) <= j
  {
    if j > 0 && !IsSpace(s[0]) {
      FirstSpaceAtMost(s[1..], j - 1);
    }
  }

  lemma WordsStep(s: string, k: nat)
    requires k == FirstSpace(s) < |s|
    ensures Words(s) == (if k == 0 then [] else [s[..k]]) + Words(s[k + 1..])
  {
  }

  /** The first word of `s` is also the first word of any longer prefix of `s`. */
  lemma WordsOfPrefix(s: string, j: nat)
    requires FirstSpace(s) < j <= |s|
    ensures var k := FirstSpace(s);
      Words(s[..j]) == (if k == 0 then [] else [s[..k]]) + Words(s[k + 1..j])
  {
    var k := FirstSpace(s);
    var p := s[..j];
    FirstSpaceSpec(s);
    assert p[..k] == s[..k];
    assert p[k] == s[k];
    FirstSpaceIs(p, k);
    assert p[k + 1..] == s[k + 1..j];
    WordsStep(p, k);
  }

  lemma AppendAssoc<T>(a: seq<T>, b: seq<T>, c: seq<T>)
    ensures a + (b + c) == (a + b) + c
  {
  }

  /** Separating at the first white space. */
  lemma WordsSeparateFirst(s: string, j: nat)
    requires j == FirstSpace(s) < |s|
    ensures Words(s) == Words(s[..j]) + Words(s[j + 1..])
  {
    FirstSpaceSpec(s);
    WordsStep(s, j);
    if j > 0 {
      WordsOfWord(s[..j]);
    } else {
      assert s[..j] == [];
    }
  }

  /** Separating at a later white space, given the separation of what follows the first. */
  lemma WordsSeparateLater(s: string, k: nat, j: nat)
    requires k == FirstSpace(s) < j < |s|
    requires var t := s[k + 1..]; Words(t) == Words(t[..j - k - 1]) + Words(t[j - k..])
    ensures Words(s) == Words(s[..j]) + Words(s[j + 1..])
  {
    var head: seq<string> := if k == 0 then [] else [s[..k]];
    var t := s[k + 1..];
    WordsStep(s, k);
    WordsOfPrefix(s, j);
    assert t[..j - k - 1] == s[k + 1..j];
    assert t[j - k..] == s[j + 1..];
    AppendAssoc(head, Words(s[k + 1..j]), Words(s[j + 1..]));
  }

  lemma {:induction false} WordsSeparate(s: string, j: nat)
    requires j < |s| && IsSpace(s[j])
    ensures Words(s) == Words(s[..j]) + Words(s[j + 1..])
    decreases |s|
  {
    var k := FirstSpace(s);
    FirstSpaceAtMost(s, j);
    if k == j {
      WordsSeparateFirst(s, j);
    } else {
      WordsSeparate(s[k + 1..], j - k - 1);
      WordsSeparateLater(s, k, j);
    }
  }

  /** White space separates: a white-space character never merges the fragments on its
      two sides, and never adds or removes one. */
  lemma FragmentsSeparate(s: string, j: nat)
    requires j < |s| && IsSpace(s[j])
    ensures Fragments(s) == Fragments(s[..j]) + Fragments(s[j + 1..])
  {
    FragmentsAreWordsOf(s);
    FragmentsAreWordsOf(s[..j]);
    FragmentsAreWordsOf(s[j + 1..]);
    WordsSeparate(s, j);
  }

  /** Words written out with one space between neighbours. */
  function JoinSpaced(words: seq<string>): string {
    if |words| == 0 then ""
    else if |words| == 1 then words[0]
    else words[0] + " " + JoinSpaced(words[1..])
  }

  lemma {:induction false} WordsOfJoinSpaced(words: seq<string>)
    requires forall i :: 0 <= i < |words| ==> words[i] != [] && NoSpace(words[i])
    ensures Words(JoinSpaced(words)) == words
  {
    if |words| == 1 {
      WordsOfWord(words[0]);
    } else if |words| > 1 {
      var tail := JoinSpaced(words[1..]);
      var s := words[0] + " " + tail;
      assert s[|words[0]|] == ' ';
      assert s[..|words[0]|] == words[0];
      assert s[|words[0]| + 1..] == tail;
      WordsSeparate(s, |words[0]|);
      WordsOfWord(words[0]);
      WordsOfJoinSpaced(words[1..]);
      assert [words[0]] + words[1..] == words;
    }
  }

  /** Splitting undoes joining: every list of non-empty, white-space-free words comes back
      whole, in order, from its space-joined text. */
  lemma FragmentsOfJoinSpaced(words: seq<string>)
    requires forall i :: 0 <= i < |words| ==> words[i] != [] && NoSpace(words[i])
    ensures Fragments(JoinSpaced(words)) == words
  {
    WordsOfJoinSpaced(words);
    FragmentsAreWordsOf(JoinSpaced(words));
  }

  function Concat(parts: seq<string>): string {
    if parts == [] then "" else parts[0] + Concat(parts[1..])
  }

  /** `s` with every white-space character removed. */
  function NonSpace(s: string): string {
    if s == [] then "" else (if IsSpace(s[0]) then "" else [s[0]]) + NonSpace(s[1..])
  }

  lemma {:induction false} ConcatAppend(p: seq<string>, q: seq<string>)
    ensures Concat(p + q) == Concat(p) + Concat(q)
  {
    if p == [] {
      assert p + q == q;
    } else {
      assert (p + q)[0] == p[0];
      assert (p + q)[1..] == p[1..] + q;
      ConcatAppend(p[1..], q);
      assert p[0] + (Concat(p[1..]) + Concat(q)) == (p[0] + Concat(p[1..])) + Concat(q);
    }
  }

  lemma {:induction false} NonSpaceAppend(a: string, b: string)
    ensures NonSpace(a + b) == NonSpace(a) + NonSpace(b)
  {
    if a == [] {
      assert a + b == b;
    } else {
      var h := if IsSpace(a[0]) then "" else [a[0]];
      assert (a + b)[0] == a[0];
      assert (a + b)[1..] == a[1..] + b;
      NonSpaceAppend(a[1..], b);
      assert h + (NonSpace(a[1..]) + NonSpace(b)) == (h + NonSpace(a[1..])) + NonSpace(b);
    }
  }

  lemma {:induction false} NonSpaceOfWord(w: string)
    requires NoSpace(w)
    ensures NonSpace(w) == w
  {
    if w != [] {
      NonSpaceOfWord(w[1..]);
      assert w == [w[0]] + w[1..];
    }
  }

  lemma {:induction false} NonSpaceEmpty(s: string)
    ensures NonSpace(s) == [] <==> AllSpace(s)
  {
    if s != [] {
      NonSpaceEmpty(s[1..]);
      assert AllSpace(s) <==> IsSpace(s[0]) && AllSpace(s[1..]);
    }
  }

  lemma {:induction false} WordsKeepCharacters(s: string)
    ensures Concat(Words(s)) == NonSpace(s)
    decreases |s|
  {
    if s != [] {
      var k := FirstSpace(s);
      FirstSpaceSpec(s);
      NonSpaceOfWord(s[..k]);
      var head: seq<string> := if k == 0 then [] else [s[..k]];
      assert Concat(head) == s[..k];
      if k == |s| {
        assert s[..k] == s;
        assert head + [] == head;
      } else {
        assert s == s[..k] + [s[k]] + s[k + 1..];
        NonSpaceAppend(s[..k] + [s[k]], s[k + 1..]);
        NonSpaceAppend(s[..k], [s[k]]);
        WordsKeepCharacters(s[k + 1..]);
        ConcatAppend(head, Words(s[k + 1..]));
      }
    }
  }

  /** Nothing but white space is lost: the fragments, put back together, are exactly the
      input's other characters in their original order. */
  lemma FragmentsKeepCharacters(s: string)
    ensures Concat(Fragments(s)) == NonSpace(s)
  {
    FragmentsAreWordsOf(s);
    WordsKeepCharacters(s);
  }

  /** The page's blank guard `!inputText.trim()` holds exactly when there is no fragment to
      parse: past the guard, the parser always has at least one fragment. */
  lemma BlankIffNoFragments(s: string)
    ensures Trim(s) == [] <==> Fragments(s) == []
  {
    FragmentsKeepCharacters(s);
    NonSpaceEmpty(s);
    TrimSpec(s);
    FragmentsAreWords(s);
    var fs := Fragments(s);
    if fs != [] {
      assert fs[0] in fs;
      assert |Concat(fs)| >= |fs[0]| > 0;
    }
  }

  // ------------------------------------------------------------------------------------
  // parseInt(_, 10)
  // ------------------------------------------------------------------------------------

  /** The length of the run of decimal digits at the start of `s`. */
  function LeadingDigits(s: string): (n: nat)
    ensures n <= |s|
    ensures forall i :: 0 <= i < n ==> IsDigit(s[i])
    ensures n < |s| ==> !IsDigit(s[n])
  {
    if s != [] && IsDigit(s[0]) then 1 + LeadingDigits(s[1..]) else 0
  }

  lemma {:induction false} LeadingDigitsOf(d: string, rest: string)
    requires forall i :: 0 <= i < |d| ==> IsDigit(d[i])
    requires rest == [] || !IsDigit(rest[0])
    ensures LeadingDigits(d + rest) == |d|
  {
    if d != [] {
      assert (d + rest)[1..] == d[1..] + rest;
      LeadingDigitsOf(d[1..], rest);
    }
  }

  function DigitValue(c: char): nat
    requires IsDigit(c)
  {
    c as int - '0' as int
  }

  /** The value of a string of decimal digits, most significant first. */
  function DigitsValue(d: string): nat
    requires forall i :: 0 <= i < |d| ==> IsDigit(d[i])
  {
    if d == [] then 0 else 10 * DigitsValue(d[..|d| - 1]) + DigitValue(d[|d| - 1])
  }

  predicate HasSign(t: string) {
    t != [] && (t[0] == '+' || t[0] == '-')
  }

  /** What follows the optional sign. */
  function AfterSign(t: string): string {
    if HasSign(t) then t[1..] else t
  }

  /** The strings `parseInt(t, 10)` turns into a number: after leading white space and an
      optional sign, a decimal digit. */
  predicate StartsWithNumber(t: string) {
    var u := AfterSign(SkipSpaces(t));
    u != [] && IsDigit(u[0])
  }

  /** The value of the run of digits at the start of `u`, or `None` when there is none. */
  function ParseDigits(u: string): Option<nat> {
    var n := LeadingDigits(u);
    if n == 0 then None else Some(DigitsValue(u[..n]))
  }

  /** JavaScript's `parseInt(t, 10)`: the value of the longest run of digits after leading
      white space and an optional sign, or `None` for NaN when no digit follows. What comes
      after the digits is ignored. */
  function ParseInt(t: string): Option<int> {
    var s := SkipSpaces(t);
    match ParseDigits(AfterSign(s))
    case None => None
    case Some(v) => if HasSign(s) && s[0] == '-' then Some(-(v as int)) else Some(v)
  }

  /** `parseInt` gives NaN exactly when no digit follows the white space and the sign. */
  lemma ParseIntDefined(t: string)
    ensures ParseInt(t).Some? <==> StartsWithNumber(t)
  {
    var u := AfterSign(SkipSpaces(t));
    if u != [] && IsDigit(u[0]) {
      assert u[..LeadingDigits(u)] != [];
    }
  }

  /** Text after the digits is ignored: `"12abc"` reads as 12. */
  lemma ParseIntTrailingText()
    ensures ParseInt("12abc") == Some(12)
  {
    var d, rest := "12", "abc";
    ParseIntDigits(NoSign, d, rest);
    assert DigitsValue(d) == 12 by { assert d[..1] == "1"; }
    assert SignText(NoSign) + (d + rest) == "12abc";
  }

  /** A hexadecimal prefix is not understood: `"0x1F"` reads as the digit 0. */
  lemma ParseIntHexPrefix()
    ensures ParseInt("0x1F") == Some(0)
  {
    var d, rest := "0", "x1F";
    ParseIntDigits(NoSign, d, rest);
    assert SignText(NoSign) + (d + rest) == "0x1F";
  }

  /** A minus sign is kept: `"-7"` reads as -7. */
  lemma ParseIntNegative()
    ensures ParseInt("-7") == Some(-7)
  {
    var d := "7";
    ParseIntDigits(Minus, d, "");
    assert SignText(Minus) + (d + "") == "-7";
  }

  /** A word that does not start with a digit is NaN: `"abc"`. */
  lemma ParseIntNoDigit()
    ensures ParseInt("abc") == None
  {
    var w := "abc";
    assert !IsSpace(w[0]) && !IsDigit(w[0]) && !HasSign(w);
    ParseIntDefined(w);
  }

  function DigitChar(d: nat): char
    requires d < 10
  {
    ('0' as int + d) as char
  }

  /** The decimal numeral of `n`, as JavaScript's `String(n)` writes it. */
  function Decimal(n: nat): (d: string)
    ensures d != [] && forall i :: 0 <= i < |d| ==> IsDigit(d[i])
  {
    if n < 10 then [DigitChar(n)] else Decimal(n / 10) + [DigitChar(n % 10)]
  }

  lemma {:induction false} DecimalValue(n: nat)
    ensures DigitsValue(Decimal(n)) == n
  {
    if n >= 10 {
      var d := Decimal(n);
      assert d[..|d| - 1] == Decimal(n / 10);
      DecimalValue(n / 10);
    }
  }

  /** The run of digits is read up to the first character that is not a digit. */
  lemma ParseDigitsOf(d: string, rest: string)
    requires d != [] && forall i :: 0 <= i < |d| ==> IsDigit(d[i])
    requires rest == [] || !IsDigit(rest[0])
    ensures ParseDigits(d + rest) == Some(DigitsValue(d))
  {
    LeadingDigitsOf(d, rest);
    assert (d + rest)[..|d|] == d;
  }

  /** The sign a numeral may carry. */
  datatype Sign = NoSign | Plus | Minus

  function SignText(sign: Sign): string {
    match sign
    case NoSign => ""
    case Plus => "+"
    case Minus => "-"
  }

  function Signed(sign: Sign, v: nat): int {
    if sign == Minus then -(v as int) else v
  }

  lemma ParseUnsigned(u: string, v: nat)
    requires u != [] && IsDigit(u[0]) && ParseDigits(u) == Some(v)
    ensures ParseInt(u) == Some(v)
  {
  }

  lemma ParsePlus(u: string, v: nat)
    requires u != [] && IsDigit(u[0]) && ParseDigits(u) == Some(v)
    ensures ParseInt("+" + u) == Some(v)
  {
    assert SkipSpaces("+" + u) == "+" + u by { assert ("+" + u)[0] == '+'; }
    assert AfterSign("+" + u) == u by { assert ("+" + u)[1..] == u; }
  }

  lemma ParseMinus(u: string, v: nat)
    requires u != [] && IsDigit(u[0]) && ParseDigits(u) == Some(v)
    ensures ParseInt("-" + u) == Some(-(v as int))
  {
    assert SkipSpaces("-" + u) == "-" + u by { assert ("-" + u)[0] == '-'; }
    assert AfterSign("-" + u) == u by { assert ("-" + u)[1..] == u; }
  }

  lemma ParseSigned(sign: Sign, u: string, v: nat)
    requires u != [] && IsDigit(u[0]) && ParseDigits(u) == Some(v)
    ensures ParseInt(SignText(sign) + u) == Some(Signed(sign, v))
  {
    match sign
    case NoSign => assert "" + u == u; ParseUnsigned(u, v);
    case Plus => ParsePlus(u, v);
    case Minus => ParseMinus(u, v);
  }

  /** `parseInt` reads an optional sign and a run of digits, and ignores whatever follows
      when that does not start with a digit: `"12abc"` gives 12 and `"0x1F"` gives 0. */
  lemma ParseIntDigits(sign: Sign, d: string, rest: string)
    requires d != [] && forall i :: 0 <= i < |d| ==> IsDigit(d[i])
    requires rest == [] || !IsDigit(rest[0])
    ensures ParseInt(SignText(sign) + (d + rest)) == Some(Signed(sign, DigitsValue(d)))
  {
    ParseDigitsOf(d, rest);
    ParseSigned(sign, d + rest, DigitsValue(d));
  }

  /** `parseInt` reads back the numeral of every natural number, signed or not. */
  lemma ParseIntDecimal(sign: Sign, n: nat, rest: string)
    requires rest == [] || !IsDigit(rest[0])
    ensures ParseInt(SignText(sign) + (Decimal(n) + rest)) == Some(Signed(sign, n))
  {
    ParseIntDigits(sign, Decimal(n), rest);
    DecimalValue(n);
  }

  // ------------------------------------------------------------------------------------
  // The token parser
  // ------------------------------------------------------------------------------------

  const InvalidTokenPrefix := "Invalid token: "

  predicate Parses(fragment: string) {
    ParseInt(Trim(fragment)).Some?
  }

  /** `j` is the first fragment, from the left, that `parseInt` turns into NaN. */
  predicate FirstInvalid(fragments: seq<string>, j: int) {
    0 <= j < |fragments| && !Parses(fragments[j])
    && forall i :: 0 <= i < j ==> Parses(fragments[i])
  }

  /** The `map` over the fragments: each fragment's `parseInt` value, in order, or the error
      thrown at the first fragment that gives NaN. */
  function ParseAll(fragments: seq<string>): (r: Result<seq<int>>)
    ensures r.Ok? <==> forall i :: 0 <= i < |fragments| ==> Parses(fragments[i])
    ensures r.Ok? ==> |r.value| == |fragments|
    ensures r.Ok? ==> forall i :: 0 <= i < |fragments| ==> ParseInt(Trim(fragments[i])) == Some(r.value[i])
    ensures r.Err? ==> exists j :: FirstInvalid(fragments, j) && r.message == InvalidTokenPrefix + fragments[j]
  {
    if fragments == [] then Ok([])
    else
      var first := ParseInt(Trim(fragments[0]));
      var rest := ParseAll(fragments[1..]);
      if first.None? then
        assert FirstInvalid(fragments, 0);
        Err(InvalidTokenPrefix + fragments[0])
      else if rest.Err? then
        assert forall j :: FirstInvalid(fragments[1..], j) ==> FirstInvalid(fragments, j + 1);
        rest
      else
        Ok([first.value] + rest.value)
  }

  /** The parse in the page's submit handler: split, filter, map. A successful parse past the blank guard
      hands the decoder a non-empty list with one id per fragment. */
  function ParseTokens(input: string): (r: Result<seq<int>>)
    ensures r.Ok? ==> |r.value| == |Fragments(input)|
    ensures r.Ok? && Trim(input) != [] ==> r.value != []
  {
    BlankIffNoFragments(input);
    ParseAll(Fragments(input))
  }

  /** The decimal numerals of a list of ids. */
  function Numerals(ids: seq<nat>): seq<string> {
    seq(|ids|, i requires 0 <= i < |ids| => Decimal(ids[i]))
  }

  /** A numeral is a fragment that parses to its value. */
  lemma ParsesNumeral(n: nat)
    ensures Decimal(n) != [] && NoSpace(Decimal(n))
    ensures ParseInt(Trim(Decimal(n))) == Some(n)
  {
    var d := Decimal(n);
    assert NoSpace(d);
    TrimSpec(d);
    ParseIntDecimal(NoSign, n, "");
    assert SignText(NoSign) + (d + "") == d;
  }

  lemma {:induction false} ParseAllNumerals(ids: seq<nat>)
    ensures ParseAll(Numerals(ids)) == Ok(ids)
  {
    if ids != [] {
      ParsesNumeral(ids[0]);
      assert Numerals(ids)[1..] == Numerals(ids[1..]);
      ParseAllNumerals(ids[1..]);
      assert [ids[0]] + ids[1..] == ids;
    }
  }

  /** Writing ids as decimal numerals separated by spaces and parsing the text gives the
      ids back, in order. */
  lemma ParseTokensRoundTrip(ids: seq<nat>)
    ensures ParseTokens(JoinSpaced(Numerals(ids))) == Ok(ids)
  {
    var ws := Numerals(ids);
    forall i | 0 <= i < |ws|
      ensures ws[i] != [] && NoSpace(ws[i])
    {
      ParsesNumeral(ids[i]);
    }
    FragmentsOfJoinSpaced(ws);
    ParseAllNumerals(ids);
  }

  /** A word that `parseInt` rejects, after any number of valid ids, fails the whole parse
      with a message naming that word. */
  lemma ParseTokensRejects(ids: seq<nat>, w: string)
    requires w != [] && NoSpace(w) && !StartsWithNumber(w)
    ensures ParseTokens(JoinSpaced(Numerals(ids) + [w])) == Err(InvalidTokenPrefix + w)
  {
    var fs := Numerals(ids) + [w];
    forall i | 0 <= i < |fs|
      ensures fs[i] != [] && NoSpace(fs[i])
      ensures i < |ids| ==> Parses(fs[i])
    {
      if i < |ids| {
        ParsesNumeral(ids[i]);
      }
    }
    FragmentsOfJoinSpaced(fs);
    TrimSpec(w);
    ParseIntDefined(w);
    assert !Parses(fs[|ids|]);
  }

  // ------------------------------------------------------------------------------------
  // The page
  // ------------------------------------------------------------------------------------

  /** What the external decoder (tokenizer lookup and UTF-8 decoding) does with a token list:
      returns text, throws an `Error` with a message, or throws something else. */
  datatype Decoded = Decoded(text: string) | Failed(message: string) | FailedWithoutMessage

  const GenericFailure := "Failed to decode tokens"

  /** The four state cells of the page. */
  class Page {
    var inputText: string
    var outputText: string
    var isDecoding: bool
    var error: Option<string>

    constructor ()
      ensures inputText == "" && outputText == "" && !isDecoding && error == None
    {
      inputText := "";
      outputText := "";
      isDecoding := false;
      error := None;
    }

    /** The input's change handler. */
    method Edit(value: string)
      modifies this
      ensures inputText == value
      ensures outputText == old(outputText) && isDecoding == old(isDecoding) && error == old(error)
    {
      inputText := value;
    }

    /** The form's submit handler. The error is cleared first; blank input stops there.
        Otherwise the input is parsed and decoded, the output is written only when the
        decoder returns text, any failure becomes the error, and `isDecoding` ends false. */
    method Submit(decode: seq<int> -> Decoded)
      modifies this
      ensures inputText == old(inputText)
      ensures Trim(inputText) == [] ==>
        error == None && outputText == old(outputText) && isDecoding == old(isDecoding)
      ensures Trim(inputText) != [] ==> !isDecoding
      ensures Trim(inputText) != [] ==>
        match ParseTokens(inputText)
        case Err(m) => error == Some(m) && outputText == old(outputText)
        case Ok(tokens) =>
          match decode(tokens)
          case Decoded(text) => error == None && outputText == text
          case Failed(m) => error == Some(m) && outputText == old(outputText)
          case FailedWithoutMessage => error == Some(GenericFailure) && outputText == old(outputText)
    {
      error := None;
      if Trim(inputText) == [] {
        return;
      }
      isDecoding := true;
      var parsed := ParseTokens(inputText);
      match parsed {
        case Err(m) =>
          error := Some(m);
        case Ok(tokens) =>
          var result := decode(tokens);
          match result {
            case Decoded(text) =>
              outputText := text;
            case Failed(m) =>
              error := Some(m);
            case FailedWithoutMessage =>
              error := Some(GenericFailure);
          }
      }
      isDecoding := false;
    }

    /** The click handler on the output: both the output and the input become empty. */
    method Reset()
      modifies this
      ensures outputText == "" && inputText == ""
      ensures isDecoding == old(isDecoding) && error == old(error)
    {
      outputText := "";
      inputText := "";
    }
  }
}
