/** The string operations the source normalises text with. Letter case is folded for the
    26 ASCII letters; white space is the set JavaScript's `trim` and `\s` share. */
module Text {
  import Common

  predicate IsSpace(c: char) {
    || '\t' <= c <= '\r' || c == ' ' || c == '\U{00A0}' || c == '\U{1680}'
    || '\U{2000}' <= c <= '\U{200A}' || c == '\U{2028}' || c == '\U{2029}'
    || c == '\U{202F}' || c == '\U{205F}' || c == '\U{3000}' || c == '\U{FEFF}'
  }

  function LowerChar(c: char): char {
    if 'A' <= c <= 'Z' then ((c as int) + 32) as char else c
  }

  function UpperChar(c: char): char {
    if 'a' <= c <= 'z' then ((c as int) - 32) as char else c
  }

  function Lower(s: string): string {
    seq(|s|, i requires 0 <= i < |s| => LowerChar(s[i]))
  }

  function Upper(s: string): string {
    seq(|s|, i requires 0 <= i < |s| => UpperChar(s[i]))
  }

  function TrimStart(s: string): string {
    if s != [] && IsSpace(s[0]) then TrimStart(s[1..]) else s
  }

  function TrimEnd(s: string): string {
    if s != [] && IsSpace(s[|s| - 1]) then TrimEnd(s[..|s| - 1]) else s
  }

  function Trim(s: string): string {
    TrimEnd(TrimStart(s))
  }

  /** `replace(/\s+/g, " ")`: every maximal run of white space becomes one blank. */
  function CollapseSpaces(s: string): string {
    if s == [] then []
    else if !IsSpace(s[0]) then [s[0]] + CollapseSpaces(s[1..])
    else if |s| > 1 && IsSpace(s[1]) then CollapseSpaces(s[1..])
    else " " + CollapseSpaces(s[1..])
  }

  /** `split(separator)` for a one-character separator. */
  function Split(s: string, separator: char): seq<string> {
    if s == [] then [""]
    else
      var rest := Split(s[1..], separator);
      if s[0] == separator then [""] + rest
      else if rest == [] then [[s[0]]]
      else [[s[0]] + rest[0]] + rest[1..]
  }

  /** `String(n)` of a whole number. */
  function Digits(n: nat): string {
    (if n < 10 then "" else Digits(n / 10)) + [(n % 10 + 48) as char]
  }

  function Shown(n: int): string {
    if n < 0 then "-" + Digits(-n) else Digits(n)
  }

  // ---- what the operations mean, without their recursion ----

  ghost predicate AllSpace(s: string) {
    forall k | 0 <= k < |s| :: IsSpace(s[k])
  }

  /** The same letter in either case, or the same character. */
  ghost predicate SameLetter(c: char, d: char) {
    || c == d
    || ('A' <= c <= 'Z' && d as int == c as int + 32)
    || ('A' <= d <= 'Z' && c as int == d as int + 32)
  }

  ghost predicate SameLetters(s: string, t: string) {
    |s| == |t| && forall i | 0 <= i < |s| :: SameLetter(s[i], t[i])
  }

  /** The text in lower case is the one that differs in case only and has no capital letter. */
  lemma LowerMeaning(s: string, r: string)
    ensures r == Lower(s) <==> SameLetters(s, r) && forall c | c in r :: !('A' <= c <= 'Z')
  {
    if SameLetters(s, r) && forall c | c in r :: !('A' <= c <= 'Z') {
      forall i | 0 <= i < |s| ensures r[i] == Lower(s)[i] {
        assert r[i] in r && SameLetter(s[i], r[i]);
      }
    }
  }

  lemma UpperMeaning(s: string, r: string)
    ensures r == Upper(s) <==> SameLetters(s, r) && forall c | c in r :: !('a' <= c <= 'z')
  {
    if SameLetters(s, r) && forall c | c in r :: !('a' <= c <= 'z') {
      forall i | 0 <= i < |s| ensures r[i] == Upper(s)[i] {
        assert r[i] in r && SameLetter(s[i], r[i]);
      }
    }
  }

  lemma SameLower(s: string, t: string)
    ensures Lower(s) == Lower(t) <==> SameLetters(s, t)
  {
    if Lower(s) == Lower(t) {
      forall i | 0 <= i < |s| ensures SameLetter(s[i], t[i]) {
        assert Lower(s)[i] == Lower(t)[i];
      }
    }
  }

  /** `r` is what is left of `s` without the white space around it. */
  ghost predicate Trimmed(s: string, r: string) {
    exists i, j | 0 <= i <= j <= |s| :: r == s[i..j] && AllSpace(s[..i]) && AllSpace(s[j..]) && Inked(r)
  }

  ghost predicate Inked(r: string) {
    r != "" ==> !IsSpace(r[0]) && !IsSpace(r[|r| - 1])
  }

  lemma {:induction false} TrimStartCut(s: string) returns (i: nat)
    ensures i <= |s| && TrimStart(s) == s[i..] && AllSpace(s[..i])
    ensures TrimStart(s) != "" ==> !IsSpace(TrimStart(s)[0])
  {
    if s != "" && IsSpace(s[0]) {
      i := TrimStartCut(s[1..]);
      assert s[..i + 1] == [s[0]] + s[1..][..i];
      i := i + 1;
    } else {
      i := 0;
    }
  }

  lemma SpaceAfter(s: string, j: nat)
    requires j < |s| && AllSpace(s[..|s| - 1][j..]) && IsSpace(s[|s| - 1])
    ensures AllSpace(s[j..])
  {
    var init := s[..|s| - 1][j..];
    assert s[j..] == init + [s[|s| - 1]];
    assert forall k | 0 <= k < |init| :: IsSpace(init[k]);
  }

  lemma {:induction false} TrimEndCut(s: string) returns (j: nat)
    ensures j <= |s| && TrimEnd(s) == s[..j] && AllSpace(s[j..])
    ensures TrimEnd(s) != "" ==> !IsSpace(TrimEnd(s)[|TrimEnd(s)| - 1])
  {
    var n := |s|;
    if s != "" && IsSpace(s[n - 1]) {
      j := TrimEndCut(s[..n - 1]);
      assert s[..n - 1][..j] == s[..j];
      SpaceAfter(s, j);
    } else {
      j := n;
    }
  }

  lemma InkWithin(s: string, i: nat, j: nat, m: nat)
    requires i <= j <= |s| && AllSpace(s[..i]) && AllSpace(s[j..]) && m < |s|
    ensures !IsSpace(s[m]) ==> i <= m < j
  {
    if m < i { assert s[m] == s[..i][m]; }
    if m >= j { assert s[m] == s[j..][m - j]; }
  }

  lemma TrimmedUnique(s: string, i: nat, j: nat, k: nat, l: nat)
    requires i <= j <= |s| && AllSpace(s[..i]) && AllSpace(s[j..]) && Inked(s[i..j])
    requires k <= l <= |s| && AllSpace(s[..k]) && AllSpace(s[l..]) && Inked(s[k..l])
    ensures s[i..j] == s[k..l]
  {
    forall m | 0 <= m < |s| && !IsSpace(s[m]) ensures i <= m < j && k <= m < l {
      InkWithin(s, i, j, m);
      InkWithin(s, k, l, m);
    }
    if i < j { assert s[i..j][0] == s[i] && s[i..j][j - i - 1] == s[j - 1]; }
    if k < l { assert s[k..l][0] == s[k] && s[k..l][l - k - 1] == s[l - 1]; }
  }

  lemma TrimMeaning(s: string, r: string)
    ensures r == Trim(s) <==> Trimmed(s, r)
  {
    var i, j := TrimCut(s);
    if Trimmed(s, r) {
      var k, l :| 0 <= k <= l <= |s| && r == s[k..l] && AllSpace(s[..k]) && AllSpace(s[l..]) && Inked(r);
      TrimmedUnique(s, i, j, k, l);
    }
  }

  lemma TrimCut(s: string) returns (i: nat, j: nat)
    ensures i <= j <= |s| && Trim(s) == s[i..j] && AllSpace(s[..i]) && AllSpace(s[j..]) && Inked(Trim(s))
  {
    i := TrimStartCut(s);
    var n := TrimEndCut(s[i..]);
    j := i + n;
    assert s[i..j] == s[i..][..n] && s[j..] == s[i..][n..];
    if Trim(s) != "" { assert Trim(s)[0] == s[i..][0]; }
  }

  // ---- words ----

  /** The maximal runs of characters that are not gaps. */
  function Runs(s: string, gap: char -> bool): seq<string> {
    if s == "" then []
    else if gap(s[0]) then Runs(s[1..], gap)
    else if |s| == 1 || gap(s[1]) then [[s[0]]] + Runs(s[1..], gap)
    else Grow(s[0], Runs(s[1..], gap))
  }

  /** The first word, if any, begins one character earlier. */
  function Grow(c: char, words: seq<string>): seq<string> {
    if words == [] then [[c]] else [[c] + words[0]] + words[1..]
  }

  /** The words: what white space separates. */
  function Words(s: string): seq<string> {
    Runs(s, IsSpace)
  }

  ghost predicate Solid(w: string, gap: char -> bool) {
    w != "" && forall k | 0 <= k < |w| :: !gap(w[k])
  }

  lemma GrowConcat(c: char, v: seq<string>, w: seq<string>)
    requires v != []
    ensures Grow(c, v + w) == Grow(c, v) + w
  {
    assert (v + w)[1..] == v[1..] + w;
  }

  lemma GrowSolid(c: char, words: seq<string>, gap: char -> bool)
    requires !gap(c) && forall w | w in words :: Solid(w, gap)
    ensures forall w | w in Grow(c, words) || w in [[c]] + words :: Solid(w, gap)
  {
    assert Solid([c], gap);
    if words != [] {
      assert words[0] in words;
      assert Solid([c] + words[0], gap);
    }
  }

  lemma {:induction false} RunsAreSolid(s: string, gap: char -> bool)
    ensures forall w | w in Runs(s, gap) :: Solid(w, gap)
    ensures Runs(s, gap) == [] <==> forall k | 0 <= k < |s| :: gap(s[k])
  {
    if s != "" {
      RunsAreSolid(s[1..], gap);
      assert s == [s[0]] + s[1..];
      if !gap(s[0]) { GrowSolid(s[0], Runs(s[1..], gap), gap); }
    }
  }

  /** A text without gaps is one run, and a gap separates the runs before it from those after it. Nothing
      else does: these laws leave one function. */
  lemma RunsMeaning(a: string, c: char, b: string, gap: char -> bool)
    ensures Runs("", gap) == []
    ensures Solid(a, gap) ==> Runs(a, gap) == [a]
    ensures gap(c) ==> Runs(a + [c] + b, gap) == Runs(a, gap) + Runs(b, gap)
  {
    if Solid(a, gap) { OneRun(a, gap); }
    if gap(c) { RunsApart(a, c, b, gap); }
  }

  lemma {:induction false} OneRun(w: string, gap: char -> bool)
    requires Solid(w, gap)
    ensures Runs(w, gap) == [w]
  {
    assert w == [w[0]] + w[1..];
    if |w| == 1 {
      assert w == [w[0]] && Runs(w[1..], gap) == [];
    } else {
      OneRun(w[1..], gap);
      assert Runs(w, gap) == Grow(w[0], [w[1..]]);
    }
  }

  lemma {:induction false} RunsApart(a: string, c: char, b: string, gap: char -> bool)
    requires gap(c)
    ensures Runs(a + [c] + b, gap) == Runs(a, gap) + Runs(b, gap)
  {
    if a == "" {
      assert (a + [c] + b)[1..] == b;
    } else {
      RunsApart(a[1..], c, b, gap);
      RunsAreSolid(a[1..], gap);
      assert a + [c] + b == [a[0]] + (a[1..] + [c] + b) && a == [a[0]] + a[1..];
      RunsFrom(a[0], a[1..] + [c] + b, gap);
      RunsFrom(a[0], a[1..], gap);
      BeginApart(a[0], a[1..], Runs(a[1..], gap), Runs(b, gap), gap);
    }
  }

  /** The runs of a text, by its first character. */
  function Begin(c: char, rest: string, runs: seq<string>, gap: char -> bool): seq<string> {
    if gap(c) then runs else if rest == "" || gap(rest[0]) then [[c]] + runs else Grow(c, runs)
  }

  lemma RunsFrom(c: char, rest: string, gap: char -> bool)
    ensures Runs([c] + rest, gap) == Begin(c, rest, Runs(rest, gap), gap)
  {
    assert ([c] + rest)[1..] == rest;
  }

  lemma BeginApart(c: char, rest: string, v: seq<string>, w: seq<string>, gap: char -> bool)
    requires rest != "" && !gap(rest[0]) ==> v != []
    ensures rest != "" ==> Begin(c, rest, v + w, gap) == Begin(c, rest, v, gap) + w
    ensures !gap(c) ==> [[c]] + (v + w) == [[c]] + v + w
  {
    if v != [] { GrowConcat(c, v, w); }
  }

  /** The words with one blank between them. */
  function Joined(words: seq<string>): string {
    if words == [] then "" else if |words| == 1 then words[0] else words[0] + " " + Joined(words[1..])
  }

  lemma GrowJoined(c: char, words: seq<string>)
    ensures Joined(Grow(c, words)) == [c] + Joined(words)
  {
    if words != [] {
      var grown := Grow(c, words);
      assert grown[1..] == words[1..];
      if |words| > 1 { Common.Regroup([c], words[0] + " ", Joined(words[1..]), ""); }
    }
  }

  lemma {:induction false} JoinedRuns(words: seq<string>, gap: char -> bool)
    requires gap(' ') && forall w | w in words :: Solid(w, gap)
    ensures Runs(Joined(words), gap) == words
  {
    if |words| == 1 {
      OneRun(words[0], gap);
    } else if |words| > 1 {
      JoinedRuns(words[1..], gap);
      RunsApart(words[0], ' ', Joined(words[1..]), gap);
      OneRun(words[0], gap);
      assert words == [words[0]] + words[1..];
    }
  }

  lemma {:induction false} CollapseWords(s: string)
    requires s != "" ==> !IsSpace(s[|s| - 1])
    ensures CollapseSpaces(s) == (if s != "" && IsSpace(s[0]) then " " else "") + Joined(Words(s))
  {
    if s != "" {
      var c, rest := s[0], s[1..];
      assert s == [c] + rest;
      if rest != "" { assert rest[|rest| - 1] == s[|s| - 1]; }
      CollapseWords(rest);
      RunsAreSolid(rest, IsSpace);
      RunsFrom(c, rest, IsSpace);
      JoinedBegin(c, rest, Words(rest), IsSpace);
    }
  }

  /** The joined runs of a text, by its first character. */
  lemma JoinedBegin(c: char, rest: string, runs: seq<string>, gap: char -> bool)
    requires !gap(c) && rest != "" ==> runs != []
    ensures gap(c) ==> Joined(Begin(c, rest, runs, gap)) == Joined(runs)
    ensures !gap(c) && rest != "" ==>
      Joined(Begin(c, rest, runs, gap)) == [c] + (if gap(rest[0]) then " " else "") + Joined(runs)
    ensures !gap(c) && rest == "" && runs == [] ==> Joined(Begin(c, rest, runs, gap)) == [c]
  {
    if !gap(c) {
      GrowJoined(c, runs);
      assert [c] + "" == [c];
      if runs != [] { assert ([[c]] + runs)[1..] == runs; }
    }
  }

  lemma {:induction false} TrimStartRuns(s: string, gap: char -> bool)
    requires forall c :: IsSpace(c) ==> gap(c)
    ensures Runs(TrimStart(s), gap) == Runs(s, gap)
  {
    if s != "" && IsSpace(s[0]) { TrimStartRuns(s[1..], gap); }
  }

  lemma {:induction false} TrimEndRuns(s: string, gap: char -> bool)
    requires forall c :: IsSpace(c) ==> gap(c)
    ensures Runs(TrimEnd(s), gap) == Runs(s, gap)
  {
    var n := |s|;
    if s != "" && IsSpace(s[n - 1]) {
      TrimEndRuns(s[..n - 1], gap);
      RunsApart(s[..n - 1], s[n - 1], "", gap);
      assert s == s[..n - 1] + [s[n - 1]] + "";
    }
  }

  lemma TrimRuns(s: string, gap: char -> bool)
    requires forall c :: IsSpace(c) ==> gap(c)
    ensures Runs(Trim(s), gap) == Runs(s, gap)
  {
    TrimStartRuns(s, gap);
    TrimEndRuns(TrimStart(s), gap);
  }

  lemma TrimmedBlank(s: string)
    ensures Trim(s) == "" <==> AllSpace(s)
  {
    TrimRuns(s, IsSpace);
    RunsAreSolid(s, IsSpace);
    RunsAreSolid(Trim(s), IsSpace);
    TrimMeaning(s, Trim(s));
    if Trim(s) != "" { assert !IsSpace(Trim(s)[0]); }
  }

  lemma CollapseTrim(s: string)
    ensures CollapseSpaces(Trim(s)) == Joined(Words(s))
  {
    TrimRuns(s, IsSpace);
    TrimMeaning(s, Trim(s));
    CollapseWords(Trim(s));
  }

  function LowerAll(words: seq<string>): seq<string> {
    seq(|words|, k requires 0 <= k < |words| => Lower(words[k]))
  }

  lemma LowerConcat(s: string, t: string)
    ensures Lower(s + t) == Lower(s) + Lower(t)
  {
  }

  lemma LowerSpace(c: char)
    ensures IsSpace(LowerChar(c)) == IsSpace(c)
  {
  }

  lemma GrowLower(c: char, words: seq<string>)
    ensures LowerAll(Grow(c, words)) == Grow(LowerChar(c), LowerAll(words))
    ensures LowerAll([[c]] + words) == [[LowerChar(c)]] + LowerAll(words)
  {
    assert Lower([c]) == [LowerChar(c)];
    if words != [] { LowerConcat([c], words[0]); }
  }

  lemma {:induction false} LowerRuns(s: string, gap: char -> bool, lowerGap: char -> bool)
    requires forall c :: lowerGap(LowerChar(c)) == gap(c)
    ensures Runs(Lower(s), lowerGap) == LowerAll(Runs(s, gap))
  {
    if s != "" {
      LowerRuns(s[1..], gap, lowerGap);
      assert Lower(s)[1..] == Lower(s[1..]);
      assert lowerGap(LowerChar(s[0])) == gap(s[0]);
      GrowLower(s[0], Runs(s[1..], gap));
    }
  }

  lemma {:induction false} JoinedLower(words: seq<string>)
    ensures Lower(Joined(words)) == Joined(LowerAll(words))
  {
    if |words| > 1 {
      JoinedLower(words[1..]);
      assert LowerAll(words)[1..] == LowerAll(words[1..]);
      LowerConcat(words[0] + " ", Joined(words[1..]));
      LowerConcat(words[0], " ");
      assert Lower(" ") == " ";
    }
  }

  /** The same words in the same order, letter by letter but for their case. */
  ghost predicate SameLists(v: seq<string>, w: seq<string>) {
    |v| == |w| && forall k | 0 <= k < |v| :: SameLetters(v[k], w[k])
  }

  /** The same words in the same order, whatever the spacing and the case of letters. */
  ghost predicate SameWords(a: string, b: string) {
    SameLists(Words(a), Words(b))
  }

  lemma LowerAllSame(v: seq<string>, w: seq<string>)
    ensures LowerAll(v) == LowerAll(w) <==> SameLists(v, w)
  {
    forall k | 0 <= k < |v| && k < |w| ensures Lower(v[k]) == Lower(w[k]) <==> SameLetters(v[k], w[k]) {
      SameLower(v[k], w[k]);
    }
    if LowerAll(v) == LowerAll(w) {
      assert |v| == |LowerAll(v)| == |w|;
      forall k | 0 <= k < |v| ensures SameLetters(v[k], w[k]) {
        assert LowerAll(v)[k] == LowerAll(w)[k];
      }
    }
  }

  lemma SolidLower(w: string, gap: char -> bool, lowerGap: char -> bool)
    requires Solid(w, gap) && forall c :: lowerGap(LowerChar(c)) == gap(c)
    ensures Solid(Lower(w), lowerGap)
  {
  }

  /** Texts of lower-case words joined by blanks are the same exactly when the words are, but for case. */
  lemma JoinedSame(v: seq<string>, w: seq<string>, gap: char -> bool, lowerGap: char -> bool)
    requires lowerGap(' ') && forall c :: lowerGap(LowerChar(c)) == gap(c)
    requires forall x | x in v || x in w :: Solid(x, gap)
    ensures Joined(LowerAll(v)) == Joined(LowerAll(w)) <==> SameLists(v, w)
  {
    forall x | x in v || x in w ensures Solid(Lower(x), lowerGap) {
      SolidLower(x, gap, lowerGap);
    }
    JoinedRuns(LowerAll(v), lowerGap);
    JoinedRuns(LowerAll(w), lowerGap);
    LowerAllSame(v, w);
  }

  /** Trimming, collapsing and folding identify exactly the texts with the same words. */
  lemma NormalisedWords(a: string, b: string)
    ensures Lower(CollapseSpaces(Trim(a))) == Lower(CollapseSpaces(Trim(b))) <==> SameWords(a, b)
    ensures Lower(CollapseSpaces(Trim(a))) == "" <==> Words(a) == []
  {
    CollapseTrim(a);
    CollapseTrim(b);
    JoinedLower(Words(a));
    JoinedLower(Words(b));
    RunsAreSolid(a, IsSpace);
    RunsAreSolid(b, IsSpace);
    forall c ensures IsSpace(LowerChar(c)) == IsSpace(c) {
      LowerSpace(c);
    }
    JoinedSame(Words(a), Words(b), IsSpace, IsSpace);
    JoinedSame(Words(a), [], IsSpace, IsSpace);
  }

  // ---- pieces ----

  function Glued(pieces: seq<string>, separator: char): string {
    if pieces == [] then ""
    else if |pieces| == 1 then pieces[0]
    else pieces[0] + [separator] + Glued(pieces[1..], separator)
  }

  /** The pieces are free of the separator, and with it between them they are the text again. */
  lemma {:induction false} SplitMeaning(s: string, separator: char)
    ensures Split(s, separator) != [] && Glued(Split(s, separator), separator) == s
    ensures forall piece | piece in Split(s, separator) :: separator !in piece
  {
    if s != "" {
      SplitMeaning(s[1..], separator);
      assert s == [s[0]] + s[1..];
      var rest := Split(s[1..], separator);
      if s[0] == separator {
        assert ([""] + rest)[1..] == rest;
      } else {
        assert Split(s, separator) == Grow(s[0], rest);
        GrowGlued(s[0], rest, separator);
      }
    }
  }

  lemma GrowGlued(c: char, pieces: seq<string>, separator: char)
    requires pieces != []
    ensures Glued(Grow(c, pieces), separator) == [c] + Glued(pieces, separator)
  {
    var grown := Grow(c, pieces);
    assert grown[1..] == pieces[1..];
    if |pieces| > 1 { Common.Regroup([c], pieces[0], [separator], Glued(pieces[1..], separator)); }
  }

  // ---- decimal digits ----

  /** The number a text of digits shows. */
  function Value(s: string): int {
    if s == "" then 0 else 10 * Value(s[..|s| - 1]) + (s[|s| - 1] as int - 48)
  }

  lemma LastDigit(s: string, d: nat)
    requires d < 10
    ensures Value(s + [(d + 48) as char]) == 10 * Value(s) + d
  {
    var t := s + [(d + 48) as char];
    assert t[..|t| - 1] == s;
  }

  /** The digits show the number, with no leading zero. */
  lemma {:induction false} DigitsMeaning(n: nat)
    ensures Value(Digits(n)) == n && Digits(n) != ""
    ensures forall c | c in Digits(n) :: '0' <= c <= '9'
    ensures n > 0 ==> Digits(n)[0] != '0'
  {
    if n >= 10 {
      DigitsMeaning(n / 10);
      LastDigit(Digits(n / 10), n % 10);
    } else {
      LastDigit("", n);
    }
  }

  /** A negative number shows a minus sign before its digits. */
  lemma ShownMeaning(n: int)
    ensures n >= 0 ==> Value(Shown(n)) == n && forall c | c in Shown(n) :: '0' <= c <= '9'
    ensures n < 0 ==> |Shown(n)| > 1 && Shown(n)[0] == '-' && Value(Shown(n)[1..]) == -n
  {
    DigitsMeaning(if n < 0 then -n else n);
  }

  // ---- a text that survives trimming keeps something when it is normalised further ----

  lemma {:induction false} TrimEndInk(s: string)
    ensures TrimEnd(s) != [] ==> !IsSpace(TrimEnd(s)[|TrimEnd(s)| - 1])
    ensures s != [] && !IsSpace(s[|s| - 1]) ==> TrimEnd(s) == s
  {
    if s != [] && IsSpace(s[|s| - 1]) { TrimEndInk(s[..|s| - 1]); }
  }

  lemma {:induction false} TrimStartInk(s: string)
    requires s != [] && !IsSpace(s[|s| - 1])
    ensures TrimStart(s) != [] && !IsSpace(TrimStart(s)[|TrimStart(s)| - 1])
  {
    if IsSpace(s[0]) { TrimStartInk(s[1..]); }
  }

  lemma {:induction false} CollapseKeeps(s: string)
    ensures CollapseSpaces(s) != [] <==> s != []
  {
    if s != [] { CollapseKeeps(s[1..]); }
  }

  lemma TrimmedKeeps(s: string)
    requires Trim(s) != []
    ensures Lower(CollapseSpaces(Trim(Trim(s)))) != []
  {
    TrimEndInk(TrimStart(s));
    TrimStartInk(Trim(s));
    TrimEndInk(TrimStart(Trim(s)));
    CollapseKeeps(Trim(Trim(s)));
  }
}
