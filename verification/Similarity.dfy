/** Duplicate detection: normalised texts, the cosine and Jaccard scores, and the list of candidates.
    Scores are exact reals; `sqrt` is any exact square root. */
module Similarity {
  import opened Common
  import opened Decimal
  import opened Sorting
  import Text

  // ---- normalised questions ----

  predicate IsWord(c: char) {
    'a' <= c <= 'z' || '0' <= c <= '9'
  }

  function IndexOf(s: string, c: char): (i: nat)
    ensures i <= |s| && (i < |s| ==> s[i] == c)
    ensures forall j | 0 <= j < i :: s[j] != c
  {
    if s == [] || s[0] == c then 0 else IndexOf(s[1..], c) + 1
  }

  /** `replace(/<[^>]*>/g, " ")` */
  function StripTags(s: string): string {
    if s == [] then []
    else if s[0] == '<' && IndexOf(s, '>') < |s| then " " + StripTags(s[IndexOf(s, '>') + 1..])
    else [s[0]] + StripTags(s[1..])
  }

  /** `replace(/[^a-z0-9]+/g, " ")` */
  function SquashOthers(s: string): string {
    if s == [] then []
    else if IsWord(s[0]) then [s[0]] + SquashOthers(s[1..])
    else if |s| > 1 && !IsWord(s[1]) then SquashOthers(s[1..])
    else " " + SquashOthers(s[1..])
  }

  function Normalize(s: string): string {
    Text.Trim(Text.CollapseSpaces(SquashOthers(StripTags(Text.Lower(s)))))
  }

  function Tokens(normalized: string): set<string> {
    set t | t in Text.Split(normalized, ' ') && t != ""
  }

  /** Words of letters and digits with single blanks between them, perhaps one at either end. */
  ghost predicate Spaced(s: string) {
    && (forall i | 0 <= i < |s| :: IsWord(s[i]) || s[i] == ' ')
    && (forall i | 0 <= i < |s| - 1 :: IsWord(s[i]) || IsWord(s[i + 1]))
  }

  ghost predicate Normal(s: string) {
    Spaced(s) && (s != [] ==> IsWord(s[0]) && IsWord(s[|s| - 1]))
  }

  lemma SpacedCons(c: char, rest: string)
    requires Spaced(rest) && (IsWord(c) || (c == ' ' && (rest == [] || IsWord(rest[0]))))
    ensures Spaced([c] + rest)
  {
    var s := [c] + rest;
    assert forall i | 0 < i < |s| :: s[i] == rest[i - 1];
  }

  lemma SpacedTail(s: string)
    requires Spaced(s) && s != []
    ensures Spaced(s[1..])
  {
    assert forall i | 0 <= i < |s| - 1 :: s[1..][i] == s[i + 1];
  }

  lemma {:induction false} SquashSpaces(s: string)
    ensures Spaced(SquashOthers(s))
    ensures s != [] ==> SquashOthers(s) != [] && (IsWord(s[0]) <==> IsWord(SquashOthers(s)[0]))
  {
    if s != [] {
      SquashSpaces(s[1..]);
      if IsWord(s[0]) {
        SpacedCons(s[0], SquashOthers(s[1..]));
      } else if |s| == 1 || IsWord(s[1]) {
        SpacedCons(' ', SquashOthers(s[1..]));
      }
    }
  }

  lemma {:induction false} SquashFixed(s: string)
    requires Spaced(s)
    ensures SquashOthers(s) == s
  {
    if s != [] {
      SpacedTail(s);
      SquashFixed(s[1..]);
      assert s == [s[0]] + s[1..];
    }
  }

  lemma {:induction false} CollapseSpaced(s: string)
    requires Spaced(s)
    ensures Text.CollapseSpaces(s) == s
  {
    if s != [] {
      SpacedTail(s);
      CollapseSpaced(s[1..]);
      WordIsInk(s[0]);
      if |s| > 1 { WordIsInk(s[1]); }
      assert s == [s[0]] + s[1..];
    }
  }

  lemma WordIsInk(c: char)
    ensures IsWord(c) ==> !Text.IsSpace(c)
  {
  }

  lemma TrimSpaced(s: string)
    requires Spaced(s)
    ensures Normal(Text.Trim(s))
    ensures Normal(s) ==> Text.Trim(s) == s
  {
    var a := Text.TrimStart(s);
    if s != [] && !IsWord(s[0]) {
      assert a == Text.TrimStart(s[1..]);
      assert a == s[1..];
    } else {
      assert a == s;
    }
    if a != [] && !IsWord(a[|a| - 1]) {
      assert Text.TrimEnd(a) == Text.TrimEnd(a[..|a| - 1]);
      assert Text.TrimEnd(a) == a[..|a| - 1];
    } else {
      assert Text.TrimEnd(a) == a;
    }
  }

  lemma {:induction false} NoTags(s: string)
    requires '<' !in s
    ensures StripTags(s) == s
  {
    if s != [] { NoTags(s[1..]); }
  }

  /** Normalising yields words of letters and digits separated by single blanks, and leaves exactly the
      texts already of that form alone. */
  lemma NormalForm(s: string)
    ensures Normal(Normalize(s))
    ensures Normalize(s) == s <==> Normal(s)
    ensures Normalize(Normalize(s)) == Normalize(s)
  {
    NormalizeIsNormal(s);
    NormalIsFixed(Normalize(s));
    if Normal(s) { NormalIsFixed(s); }
  }

  lemma NormalizeIsNormal(s: string)
    ensures Normal(Normalize(s))
  {
    var t := SquashOthers(StripTags(Text.Lower(s)));
    SquashSpaces(StripTags(Text.Lower(s)));
    CollapseSpaced(t);
    TrimSpaced(t);
  }

  lemma NormalIsFixed(s: string)
    requires Normal(s)
    ensures Normalize(s) == s
  {
    assert Text.Lower(s) == s;
    NoTags(s);
    SquashFixed(s);
    CollapseSpaced(s);
    TrimSpaced(s);
  }

  // ---- what normalising identifies ----

  /** A letter of either case, or a digit. */
  predicate IsLetter(c: char) {
    'a' <= c <= 'z' || 'A' <= c <= 'Z' || '0' <= c <= '9'
  }

  predicate Between(c: char) {
    !IsLetter(c)
  }

  predicate BetweenLower(c: char) {
    !IsWord(c)
  }

  /** The runs of letters and digits of a text outside its tags. */
  function PlainWords(s: string): seq<string> {
    Text.Runs(StripTags(s), Between)
  }

  /** A tag, up to the first `>`, becomes a blank; a character that opens no closed tag stays. */
  lemma TagsMeaning(tag: string, rest: string, c: char)
    ensures StripTags("") == ""
    ensures '>' !in tag ==> StripTags("<" + tag + ">" + rest) == " " + StripTags(rest)
    ensures c != '<' || '>' !in rest ==> StripTags([c] + rest) == [c] + StripTags(rest)
  {
    var s := "<" + tag + ">" + rest;
    if '>' !in tag {
      assert s[|tag| + 1] == '>' && forall i | 0 < i <= |tag| :: s[i] == tag[i - 1];
      assert IndexOf(s, '>') == |tag| + 1;
      assert s[|tag| + 2..] == rest;
    }
    assert ([c] + rest)[1..] == rest;
    if '>' !in rest && c == '<' {
      assert forall i | 0 < i <= |rest| :: ([c] + rest)[i] == rest[i - 1];
    }
  }

  lemma {:induction false} IndexLower(s: string)
    ensures IndexOf(Text.Lower(s), '>') == IndexOf(s, '>')
  {
    if s != "" {
      IndexLower(s[1..]);
      assert Text.Lower(s)[1..] == Text.Lower(s[1..]);
    }
  }

  lemma {:induction false} StripLower(s: string)
    ensures StripTags(Text.Lower(s)) == Text.Lower(StripTags(s))
    decreases |s|
  {
    if s != "" {
      IndexLower(s);
      var n := IndexOf(s, '>');
      if s[0] == '<' && n < |s| {
        StripLower(s[n + 1..]);
        assert Text.Lower(s)[n + 1..] == Text.Lower(s[n + 1..]);
        Text.LowerConcat(" ", StripTags(s[n + 1..]));
        assert Text.Lower(" ") == " ";
      } else {
        StripLower(s[1..]);
        assert Text.Lower(s)[1..] == Text.Lower(s[1..]);
        Text.LowerConcat([s[0]], StripTags(s[1..]));
        assert Text.Lower([s[0]]) == [Text.LowerChar(s[0])];
      }
    }
  }

  lemma {:induction false} SquashRuns(s: string)
    ensures Text.Runs(SquashOthers(s), BetweenLower) == Text.Runs(s, BetweenLower)
  {
    if s != "" {
      SquashRuns(s[1..]);
      SquashSpaces(s[1..]);
      var rest := SquashOthers(s[1..]);
      if IsWord(s[0]) {
        assert ([s[0]] + rest)[1..] == rest;
      } else {
        assert (" " + rest)[1..] == rest;
      }
    }
  }

  lemma {:induction false} NormalJoined(s: string)
    requires Spaced(s) && (s != "" ==> IsWord(s[|s| - 1]))
    ensures s == (if s != "" && !IsWord(s[0]) then " " else "") + Text.Joined(Text.Runs(s, BetweenLower))
  {
    if s != "" {
      SpacedTail(s);
      Text.RunsAreSolid(s[1..], BetweenLower);
      if |s| > 1 {
        assert s[1..][|s| - 2] == s[|s| - 1];
        Text.GrowJoined(s[0], Text.Runs(s[1..], BetweenLower));
      }
      NormalJoined(s[1..]);
      assert s == [s[0]] + s[1..];
    }
  }

  /** Normalising keeps the runs of letters and digits outside the tags, in lower case and with single
      blanks between them. */
  lemma NormalizeJoins(s: string)
    ensures Normalize(s) == Text.Joined(Text.LowerAll(PlainWords(s)))
  {
    var t := StripTags(Text.Lower(s));
    NormalizeIsNormal(s);
    NormalJoined(Normalize(s));
    SquashRuns(t);
    SquashSpaces(t);
    CollapseSpaced(SquashOthers(t));
    Text.TrimRuns(SquashOthers(t), BetweenLower);
    StripLower(s);
    Text.LowerRuns(StripTags(s), Between, BetweenLower);
  }

  /** Two texts normalise alike exactly when they have the same words of letters and digits outside their
      tags, whatever their letter case. */
  lemma NormalizeMeaning(a: string, b: string)
    ensures Normalize(a) == Normalize(b) <==> Text.SameLists(PlainWords(a), PlainWords(b))
  {
    NormalizeJoins(a);
    NormalizeJoins(b);
    Text.RunsAreSolid(StripTags(a), Between);
    Text.RunsAreSolid(StripTags(b), Between);
    Text.JoinedSame(PlainWords(a), PlainWords(b), Between, BetweenLower);
  }

  lemma {:induction false} TokensJoined(words: seq<string>)
    requires forall w | w in words :: Text.Solid(w, BetweenLower)
    ensures forall t :: t in Tokens(Text.Joined(words)) <==> t in words
  {
    if words != [] {
      assert words[0] in words;
      NoBlank(words[0]);
      SplitWord(words[0]);
      if |words| > 1 {
        TokensJoined(words[1..]);
        SplitFirst(words[0], Text.Joined(words[1..]));
        assert words == [words[0]] + words[1..];
      }
    }
  }

  lemma NoBlank(w: string)
    requires Text.Solid(w, BetweenLower)
    ensures forall k | 0 <= k < |w| :: w[k] != ' '
  {
    forall k | 0 <= k < |w| ensures w[k] != ' ' {
      assert !BetweenLower(w[k]);
    }
  }

  lemma {:induction false} SplitWord(w: string)
    requires forall k | 0 <= k < |w| :: w[k] != ' '
    ensures Text.Split(w, ' ') == [w]
  {
    if w != "" {
      SplitWord(w[1..]);
      assert w == [w[0]] + w[1..];
    }
  }

  lemma {:induction false} SplitFirst(w: string, rest: string)
    requires forall k | 0 <= k < |w| :: w[k] != ' '
    ensures Text.Split(w + " " + rest, ' ') == [w] + Text.Split(rest, ' ')
  {
    var s := w + " " + rest;
    if w == "" {
      assert s[1..] == rest;
    } else {
      SplitFirst(w[1..], rest);
      assert s[1..] == w[1..] + " " + rest && w == [w[0]] + w[1..];
    }
  }

  /** The tokens of a normalised text are its words, in lower case. */
  lemma TokensMeaning(s: string, t: string)
    ensures t in Tokens(Normalize(s)) <==> exists w | w in PlainWords(s) :: t == Text.Lower(w)
  {
    var words, lower := PlainWords(s), Text.LowerAll(PlainWords(s));
    NormalizeJoins(s);
    Text.RunsAreSolid(StripTags(s), Between);
    forall w | w in lower ensures Text.Solid(w, BetweenLower) {
      var k :| 0 <= k < |lower| && w == lower[k];
      Text.SolidLower(words[k], Between, BetweenLower);
    }
    TokensJoined(lower);
    if w :| w in words && t == Text.Lower(w) {
      var k :| 0 <= k < |words| && w == words[k];
      assert lower[k] == t;
    }
  }

  // ---- the cosine ----

  function Dot(a: seq<real>, b: seq<real>, n: nat): real
    requires n <= |a| && n <= |b|
  {
    if n == 0 then 0.0 else Dot(a, b, n - 1) + a[n - 1] * b[n - 1]
  }

  function Shorter(a: seq<real>, b: seq<real>): (n: nat)
    ensures n <= |a| && n <= |b| && (n == |a| || n == |b|)
  {
    if |a| <= |b| then |a| else |b|
  }

  predicate IsRoot(r: real, x: real) {
    r >= 0.0 && r * r == x
  }

  ghost predicate IsSqrt(sqrt: real -> real) {
    forall x :: x >= 0.0 ==> IsRoot(sqrt(x), x)
  }

  lemma RootPositive(l: real, r: real, sqrt: real -> real)
    requires IsSqrt(sqrt) && l > 0.0 && r > 0.0
    ensures sqrt(l * r) > 0.0 && IsRoot(sqrt(l * r), l * r)
  {
    ProductSign(l, r);
    assert IsRoot(sqrt(l * r), l * r);
    SquareSign(sqrt(l * r));
  }

  function Ratio(dot: real, left: real, right: real, sqrt: real -> real): real
    requires IsSqrt(sqrt) && left >= 0.0 && right >= 0.0
  {
    if left == 0.0 || right == 0.0 then 0.0
    else
      RootPositive(left, right, sqrt);
      dot / sqrt(left * right)
  }

  lemma RatioIs(dot: real, left: real, right: real, sqrt: real -> real)
    requires IsSqrt(sqrt) && left > 0.0 && right > 0.0
    ensures sqrt(left * right) > 0.0 && Ratio(dot, left, right, sqrt) == dot / sqrt(left * right)
  {
    RootPositive(left, right, sqrt);
  }

  predicate Comparable(a: seq<real>, b: seq<real>) {
    var n := Shorter(a, b);
    Dot(a, a, n) != 0.0 && Dot(b, b, n) != 0.0
  }

  function CosineOf(a: seq<real>, b: seq<real>, sqrt: real -> real): real
    requires IsSqrt(sqrt)
  {
    var n := Shorter(a, b);
    SelfDot(a, n);
    SelfDot(b, n);
    Ratio(Dot(a, b, n), Dot(a, a, n), Dot(b, b, n), sqrt)
  }

  method Cosine(left: seq<real>, right: seq<real>, sqrt: real -> real) returns (r: real)
    requires IsSqrt(sqrt)
    ensures r == CosineOf(left, right, sqrt)
  {
    if |left| == 0 || |right| == 0 { return 0.0; }
    var limit := Shorter(left, right);
    var dot, leftMagnitude, rightMagnitude := 0.0, 0.0, 0.0;
    for index := 0 to limit
      invariant dot == Dot(left, right, index)
      invariant leftMagnitude == Dot(left, left, index)
      invariant rightMagnitude == Dot(right, right, index)
    {
      dot := dot + left[index] * right[index];
      leftMagnitude := leftMagnitude + left[index] * left[index];
      rightMagnitude := rightMagnitude + right[index] * right[index];
    }
    SelfDot(left, limit);
    SelfDot(right, limit);
    if leftMagnitude == 0.0 || rightMagnitude == 0.0 { return 0.0; }
    RatioIs(dot, leftMagnitude, rightMagnitude, sqrt);
    r := dot / sqrt(leftMagnitude * rightMagnitude);
  }

  lemma SquareSign(x: real)
    ensures x * x >= 0.0
    ensures x * x == 0.0 <==> x == 0.0
  {
    if x >= 0.0 {
      ProductSign(x, x);
    } else {
      ProductSign(-x, -x);
      assert (-x) * (-x) == x * x;
    }
  }

  lemma ProductSign(x: real, y: real)
    requires x >= 0.0 && y >= 0.0
    ensures x * y >= 0.0
    ensures x * y == 0.0 <==> x == 0.0 || y == 0.0
  {
  }

  lemma {:induction false} SelfDot(a: seq<real>, n: nat)
    requires n <= |a|
    ensures Dot(a, a, n) >= 0.0
    ensures Dot(a, a, n) == 0.0 <==> forall i | 0 <= i < n :: a[i] == 0.0
  {
    if n > 0 {
      SelfDot(a, n - 1);
      SquareSign(a[n - 1]);
    }
  }

  function Square(x: real): real {
    x * x
  }

  /** The sum of the squares of p*b - q*a. */
  function Residual(a: seq<real>, b: seq<real>, n: nat, p: real, q: real): real
    requires n <= |a| && n <= |b|
  {
    if n == 0 then 0.0
    else Residual(a, b, n - 1, p, q) + Square(p * b[n - 1] - q * a[n - 1])
  }

  lemma {:induction false} ResidualSign(a: seq<real>, b: seq<real>, n: nat, p: real, q: real)
    requires n <= |a| && n <= |b|
    ensures Residual(a, b, n, p, q) >= 0.0
  {
    if n > 0 {
      ResidualSign(a, b, n - 1, p, q);
      LevelSquare(a[n - 1], b[n - 1], p, q);
    }
  }

  lemma {:induction false} ResidualZero(a: seq<real>, b: seq<real>, n: nat, p: real, q: real, i: nat)
    requires i < n <= |a| && n <= |b| && Residual(a, b, n, p, q) == 0.0
    ensures p * b[i] == q * a[i]
  {
    ResidualSign(a, b, n - 1, p, q);
    LevelSquare(a[n - 1], b[n - 1], p, q);
    if i < n - 1 { ResidualZero(a, b, n - 1, p, q, i); }
  }

  lemma LevelSquare(x: real, y: real, p: real, q: real)
    ensures Square(p * y - q * x) >= 0.0
    ensures Square(p * y - q * x) == 0.0 <==> p * y == q * x
  {
    SquareSign(p * y - q * x);
  }

  function Quadratic(p: real, q: real, l: real, r: real, d: real): real {
    p * p * r - 2.0 * p * q * d + q * q * l
  }

  lemma SquareOfDifference(p: real, q: real, x: real, y: real)
    ensures Square(p * y - q * x) == p * p * (y * y) - 2.0 * p * q * (x * y) + q * q * (x * x)
  {
  }

  lemma Distribute(c: real, u: real, v: real)
    ensures c * (u + v) == c * u + c * v
  {
  }

  lemma {:induction false} ResidualExpanded(a: seq<real>, b: seq<real>, n: nat, p: real, q: real)
    requires n <= |a| && n <= |b|
    ensures Residual(a, b, n, p, q) == Quadratic(p, q, Dot(a, a, n), Dot(b, b, n), Dot(a, b, n))
  {
    if n > 0 {
      ResidualExpanded(a, b, n - 1, p, q);
      var x, y := a[n - 1], b[n - 1];
      SquareOfDifference(p, q, x, y);
      Distribute(p * p, Dot(b, b, n - 1), y * y);
      Distribute(2.0 * p * q, Dot(a, b, n - 1), x * y);
      Distribute(q * q, Dot(a, a, n - 1), x * x);
    }
  }

  lemma PositiveFactor(l: real, t: real)
    requires l > 0.0
    ensures l * t >= 0.0 ==> t >= 0.0
    ensures l * t == 0.0 <==> t == 0.0
  {
  }

  lemma Discriminant(l: real, r: real, d: real)
    requires l > 0.0 && Quadratic(l, d, l, r, d) >= 0.0
    ensures d * d <= l * r
    ensures d * d == l * r ==> Quadratic(l, d, l, r, d) == 0.0
  {
    var t := l * r - d * d;
    assert Quadratic(l, d, l, r, d) == l * t;
    PositiveFactor(l, t);
  }

  lemma {:induction false} DotZero(a: seq<real>, b: seq<real>, n: nat)
    requires n <= |a| && n <= |b| && forall i | 0 <= i < n :: a[i] == 0.0
    ensures Dot(a, b, n) == 0.0
  {
    if n > 0 { DotZero(a, b, n - 1); }
  }

  /** The Cauchy-Schwarz inequality for the three sums the loop accumulates, and when it is an equality. */
  lemma CauchySchwarz(a: seq<real>, b: seq<real>, n: nat)
    requires n <= |a| && n <= |b|
    ensures Dot(a, b, n) * Dot(a, b, n) <= Dot(a, a, n) * Dot(b, b, n)
    ensures Dot(a, b, n) * Dot(a, b, n) == Dot(a, a, n) * Dot(b, b, n) ==>
      forall i | 0 <= i < n :: Dot(a, a, n) * b[i] == Dot(a, b, n) * a[i]
  {
    var l, r, d := Dot(a, a, n), Dot(b, b, n), Dot(a, b, n);
    SelfDot(a, n);
    if l == 0.0 {
      DotZero(a, b, n);
    } else {
      NonNegativeResidual(a, b, n, l, r, d);
    }
  }

  lemma NonNegativeResidual(a: seq<real>, b: seq<real>, n: nat, l: real, r: real, d: real)
    requires n <= |a| && n <= |b| && l == Dot(a, a, n) && r == Dot(b, b, n) && d == Dot(a, b, n) && l > 0.0
    ensures d * d <= l * r
    ensures d * d == l * r ==> forall i | 0 <= i < n :: l * b[i] == d * a[i]
  {
    ResidualExpanded(a, b, n, l, d);
    ResidualSign(a, b, n, l, d);
    Discriminant(l, r, d);
    if d * d == l * r {
      forall i | 0 <= i < n ensures l * b[i] == d * a[i] {
        ResidualZero(a, b, n, l, d, i);
      }
    }
  }

  lemma SquareOrder(x: real, y: real)
    requires x > y >= 0.0
    ensures x * x > y * y
  {
    ProductSign(x - y, x + y);
    assert (x - y) * (x + y) == x * x - y * y;
  }

  lemma RatioBounds(d: real, l: real, r: real, sqrt: real -> real)
    requires IsSqrt(sqrt) && l > 0.0 && r > 0.0 && d * d <= l * r
    ensures -1.0 <= Ratio(d, l, r, sqrt) <= 1.0
    ensures Ratio(d, l, r, sqrt) == 1.0 <==> d >= 0.0 && d * d == l * r
  {
    var root := sqrt(l * r);
    RootPositive(l, r, sqrt);
    if d > root { SquareOrder(d, root); }
    if d < -root {
      SquareOrder(-d, root);
      assert (-d) * (-d) == d * d;
    }
    if 0.0 <= d < root { SquareOrder(root, d); }
    QuotientOfParts(d, root);
    QuotientOfParts(-d, root);
    NegativeQuotient(d, root);
  }

  lemma NegativeQuotient(d: real, root: real)
    requires root > 0.0
    ensures -d / root == -(d / root)
  {
  }

  /** The cosine lies between -1 and 1, for vectors of any lengths. */
  lemma CosineBounds(a: seq<real>, b: seq<real>, sqrt: real -> real)
    requires IsSqrt(sqrt)
    ensures -1.0 <= CosineOf(a, b, sqrt) <= 1.0
  {
    if Comparable(a, b) {
      var n := Shorter(a, b);
      SelfDot(a, n);
      SelfDot(b, n);
      CauchySchwarz(a, b, n);
      RatioBounds(Dot(a, b, n), Dot(a, a, n), Dot(b, b, n), sqrt);
    }
  }

  lemma QuotientOfParts(part: real, whole: real)
    requires whole > 0.0 && part <= whole
    ensures part / whole <= 1.0
    ensures part / whole == 1.0 <==> part == whole
    ensures part >= 0.0 ==> part / whole >= 0.0
    ensures part / whole == 0.0 <==> part == 0.0
  {
    QuotientTimes(part, whole);
    QuotientMonotone(part, whole, whole);
    TimesQuotient(1.0, whole);
    assert 1.0 * whole == whole;
    if part >= 0.0 { QuotientMonotone(0.0, part, whole); }
  }

  lemma {:induction false} DotSymmetric(a: seq<real>, b: seq<real>, n: nat)
    requires n <= |a| && n <= |b|
    ensures Dot(a, b, n) == Dot(b, a, n)
  {
    if n > 0 { DotSymmetric(a, b, n - 1); }
  }

  lemma CosineSymmetric(a: seq<real>, b: seq<real>, sqrt: real -> real)
    requires IsSqrt(sqrt)
    ensures CosineOf(a, b, sqrt) == CosineOf(b, a, sqrt)
  {
    var n := Shorter(a, b);
    DotSymmetric(a, b, n);
    SelfDot(a, n);
    SelfDot(b, n);
    RatioSymmetric(Dot(a, b, n), Dot(a, a, n), Dot(b, b, n), sqrt);
  }

  lemma RatioSymmetric(d: real, l: real, r: real, sqrt: real -> real)
    requires IsSqrt(sqrt) && l >= 0.0 && r >= 0.0
    ensures Ratio(d, l, r, sqrt) == Ratio(d, r, l, sqrt)
  {
    assert l * r == r * l;
  }

  ghost predicate Multiple(a: seq<real>, b: seq<real>, n: nat, k: real)
    requires n <= |a| && n <= |b|
  {
    k > 0.0 && forall i | 0 <= i < n :: b[i] == k * a[i]
  }

  lemma {:induction false} DotMultiple(a: seq<real>, b: seq<real>, n: nat, k: real)
    requires n <= |a| && n <= |b| && Multiple(a, b, n, k)
    ensures Dot(a, b, n) == k * Dot(a, a, n)
    ensures Dot(b, b, n) == k * k * Dot(a, a, n)
  {
    if n > 0 {
      DotMultiple(a, b, n - 1, k);
      var x := a[n - 1];
      assert x * (k * x) == k * (x * x);
      assert (k * x) * (k * x) == k * k * (x * x);
      Distribute(k, Dot(a, a, n - 1), x * x);
      Distribute(k * k, Dot(a, a, n - 1), x * x);
    }
  }

  lemma EqualityIsMultiple(a: seq<real>, b: seq<real>, n: nat, l: real, r: real, d: real)
    requires n <= |a| && n <= |b| && l == Dot(a, a, n) && r == Dot(b, b, n) && d == Dot(a, b, n)
    requires l != 0.0 && r != 0.0 && d >= 0.0 && d * d == l * r
    ensures exists k :: Multiple(a, b, n, k)
  {
    EqualityProportional(a, b, n, l, r, d);
    SelfDot(a, n);
    SelfDot(b, n);
    PositiveRoot(l, r, d);
    Proportional(a, b, n, l, d);
  }

  lemma EqualityProportional(a: seq<real>, b: seq<real>, n: nat, l: real, r: real, d: real)
    requires n <= |a| && n <= |b| && l == Dot(a, a, n) && r == Dot(b, b, n) && d == Dot(a, b, n) && d * d == l * r
    ensures forall i | 0 <= i < n :: l * b[i] == d * a[i]
  {
    CauchySchwarz(a, b, n);
  }

  lemma Proportional(a: seq<real>, b: seq<real>, n: nat, l: real, d: real)
    requires n <= |a| && n <= |b| && l > 0.0 && d > 0.0 && forall i | 0 <= i < n :: l * b[i] == d * a[i]
    ensures Multiple(a, b, n, d / l)
  {
    PositiveQuotient(d, l);
    forall i | 0 <= i < n ensures b[i] == d / l * a[i] {
      Cancel(l, b[i], d, a[i]);
    }
  }

  lemma PositiveRoot(l: real, r: real, d: real)
    requires l > 0.0 && r > 0.0 && d >= 0.0 && d * d == l * r
    ensures d > 0.0
  {
    ProductSign(l, r);
    SquareSign(d);
  }

  lemma PositiveQuotient(d: real, l: real)
    requires d > 0.0 && l > 0.0
    ensures d / l > 0.0
  {
  }

  lemma Cancel(l: real, y: real, d: real, x: real)
    requires l > 0.0 && l * y == d * x
    ensures y == d / l * x
  {
    QuotientTimes(d, l);
    assert l * (y - d / l * x) == l * y - l * (d / l) * x;
    PositiveFactor(l, y - d / l * x);
  }

  /** The cosine of two vectors that can be compared is 1 exactly when, on the compared components, one
      is a positive multiple of the other. */
  lemma CosineIsOne(a: seq<real>, b: seq<real>, sqrt: real -> real)
    requires IsSqrt(sqrt) && Comparable(a, b)
    ensures CosineOf(a, b, sqrt) == 1.0 <==> exists k :: Multiple(a, b, Shorter(a, b), k)
  {
    var n := Shorter(a, b);
    SelfDot(a, n);
    SelfDot(b, n);
    CauchySchwarz(a, b, n);
    RatioBounds(Dot(a, b, n), Dot(a, a, n), Dot(b, b, n), sqrt);
    if CosineOf(a, b, sqrt) == 1.0 {
      EqualityIsMultiple(a, b, n, Dot(a, a, n), Dot(b, b, n), Dot(a, b, n));
    }
    if k :| Multiple(a, b, n, k) {
      DotMultiple(a, b, n, k);
      ProductSign(k, Dot(a, a, n));
      Regroup(k, Dot(a, a, n));
    }
  }

  lemma Regroup(k: real, l: real)
    ensures k * l * (k * l) == l * (k * k * l)
  {
  }

  // ---- the Jaccard index ----

  function Jaccard(a: set<string>, b: set<string>): real {
    if |a| == 0 || |b| == 0 then 0.0
    else
      UnionNonEmpty(a, b);
      |a * b| as real / |a + b| as real
  }

  lemma UnionNonEmpty(a: set<string>, b: set<string>)
    ensures |a + b| == |a * b| + |a - b| + |b - a|
    ensures |a| == |a * b| + |a - b|
    ensures |a - b| == 0 <==> a <= b
  {
    assert a == a * b + (a - b) && a + b == a + (b - a);
    assert a - b == {} <==> a <= b;
  }

  /** How many of the words occur among others, or do not. */
  function CountIn(words: seq<string>, others: seq<string>, occurring: bool): nat {
    if words == [] then 0
    else CountIn(words[1..], others, occurring) + if (words[0] in others) == occurring then 1 else 0
  }

  ghost predicate Distinct(words: seq<string>) {
    forall i, j | 0 <= i < j < |words| :: words[i] != words[j]
  }

  ghost predicate Lists(words: seq<string>, tokens: set<string>) {
    Distinct(words) && forall t :: t in words <==> t in tokens
  }

  lemma {:induction false} CountSets(words: seq<string>, others: seq<string>, a: set<string>, b: set<string>)
    requires Lists(words, a) && forall t :: t in others <==> t in b
    ensures CountIn(words, others, true) == |a * b| && CountIn(words, others, false) == |a - b|
    ensures |words| == |a|
  {
    if words == [] {
      assert a == {} && a * b == {} && a - b == {};
    } else {
      ListTail(words, a);
      CountSets(words[1..], others, a - {words[0]}, b);
      TakeToken(words[0], a, b);
    }
  }

  lemma ListTail(words: seq<string>, a: set<string>)
    requires Lists(words, a) && words != []
    ensures words[0] in a && Lists(words[1..], a - {words[0]})
  {
    assert words == [words[0]] + words[1..];
    assert words[0] !in words[1..];
  }

  lemma TakeToken(w: string, a: set<string>, b: set<string>)
    requires w in a
    ensures |a| == |a - {w}| + 1
    ensures |a * b| == |(a - {w}) * b| + (if w in b then 1 else 0)
    ensures |a - b| == |(a - {w}) - b| + (if w in b then 0 else 1)
  {
    assert a == {w} + (a - {w});
    if w in b {
      assert a * b == {w} + (a - {w}) * b && a - b == (a - {w}) - b;
    } else {
      assert a * b == (a - {w}) * b && a - b == {w} + ((a - {w}) - b);
    }
  }

  /** Of two non-empty lists of distinct tokens, the index times the number of tokens in either is the number
      of tokens in both. */
  lemma JaccardRatio(v: seq<string>, w: seq<string>, a: set<string>, b: set<string>, both: nat, either: nat)
    requires Lists(v, a) && Lists(w, b) && v != [] && w != []
    requires both == CountIn(v, w, true) && either == |v| + CountIn(w, v, false)
    ensures Jaccard(a, b) * either as real == both as real
  {
    ListCounts(v, w, a, b);
    JaccardTimes(a, b, both, either);
  }

  lemma ListCounts(v: seq<string>, w: seq<string>, a: set<string>, b: set<string>)
    requires Lists(v, a) && Lists(w, b)
    ensures CountIn(v, w, true) == |a * b| && |v| + CountIn(w, v, false) == |a + b|
    ensures |v| == |a| && |w| == |b|
  {
    CountSets(v, w, a, b);
    CountSets(w, v, b, a);
    UnionNonEmpty(a, b);
  }

  lemma JaccardTimes(a: set<string>, b: set<string>, both: nat, either: nat)
    requires |a| > 0 && |b| > 0 && both == |a * b| && either == |a + b|
    ensures Jaccard(a, b) * either as real == both as real
  {
    UnionNonEmpty(a, b);
    QuotientTimes(both as real, either as real);
  }

  /** The Jaccard index lies between 0 and 1; it is 1 exactly for equal non-empty sets and 0 exactly for
      sets without a common token; the order of the sets does not matter. */
  lemma JaccardMeaning(a: set<string>, b: set<string>)
    ensures 0.0 <= Jaccard(a, b) <= 1.0
    ensures Jaccard(a, b) == 1.0 <==> a == b && a != {}
    ensures Jaccard(a, b) == 0.0 <==> a !! b
    ensures Jaccard(a, b) == Jaccard(b, a)
  {
    if |a| == 0 || |b| == 0 {
      assert a == {} || b == {};
    } else {
      UnionNonEmpty(a, b);
      UnionNonEmpty(b, a);
      assert a + b == b + a && a * b == b * a;
      QuotientOfParts(|a * b| as real, |a + b| as real);
      assert |a * b| == 0 <==> a * b == {};
    }
  }

  // ---- scores ----

  datatype Reason = ExactNormalizedMatch | SemanticEmbeddingSimilarity | FuzzyTokenSimilarity

  /** A scored stored question; the three scores are rounded to three decimals. */
  datatype Candidate = Candidate(index: nat, similarity: real, semantic: real, fuzzy: real, reason: Reason)

  const THOUSAND: real := 1000.0

  function Fuzzy(text: string, existing: string): real {
    if Normalize(existing) == Normalize(text) then 1.0
    else Jaccard(Tokens(Normalize(text)), Tokens(Normalize(existing)))
  }

  function Max(a: real, b: real): real {
    if a >= b then a else b
  }

  function Combined(text: string, existing: string, semantic: real): real {
    Max(Fuzzy(text, existing), semantic)
  }

  function Assess(text: string, existing: string, semantic: real, index: nat): Candidate {
    var fuzzy := Fuzzy(text, existing);
    Candidate(
      index, Fixed(Max(fuzzy, semantic), THOUSAND), Fixed(semantic, THOUSAND), Fixed(fuzzy, THOUSAND),
      if Normalize(existing) == Normalize(text) then ExactNormalizedMatch
      else if semantic > fuzzy then SemanticEmbeddingSimilarity else FuzzyTokenSimilarity)
  }

  function At(embeddings: seq<seq<real>>, i: nat): seq<real> {
    if i < |embeddings| then embeddings[i] else []
  }

  /** The combined score lies between 0 and 1. It is 1 exactly when the texts normalise alike, have the
      same non-empty token set, or have embeddings that are positive multiples of each other. */
  lemma ScoreMeaning(text: string, existing: string, a: seq<real>, b: seq<real>, sqrt: real -> real)
    requires IsSqrt(sqrt)
    ensures var score := Combined(text, existing, CosineOf(a, b, sqrt));
      && 0.0 <= score <= 1.0
      && (score == 1.0 <==>
          || Normalize(text) == Normalize(existing)
          || (Tokens(Normalize(text)) == Tokens(Normalize(existing)) && Tokens(Normalize(text)) != {})
          || (Comparable(a, b) && exists k :: Multiple(a, b, Shorter(a, b), k)))
  {
    CosineBounds(a, b, sqrt);
    JaccardMeaning(Tokens(Normalize(text)), Tokens(Normalize(existing)));
    if Comparable(a, b) { CosineIsOne(a, b, sqrt); }
  }

  /** The reason names the score that is reported as the similarity, and an exact match exactly when the
      texts normalise alike. */
  lemma ReasonNamesScore(text: string, existing: string, semantic: real, index: nat)
    requires semantic <= 1.0
    ensures var c := Assess(text, existing, semantic, index);
      && c.index == index
      && (c.reason == ExactNormalizedMatch <==> Normalize(existing) == Normalize(text))
      && c.similarity == (if c.reason == SemanticEmbeddingSimilarity then c.semantic else c.fuzzy)
      && c.similarity >= c.semantic && c.similarity >= c.fuzzy
  {
    var fuzzy := Fuzzy(text, existing);
    FixedMonotone(semantic, Max(fuzzy, semantic), THOUSAND);
    FixedMonotone(fuzzy, Max(fuzzy, semantic), THOUSAND);
  }

  /** Rounding keeps a score between 0 and 1, and the threshold on rounded scores is 0.5495. */
  lemma RoundedScore(score: real)
    requires 0.0 <= score <= 1.0
    ensures 0.0 <= Fixed(score, THOUSAND) <= 1.0
    ensures score == 1.0 ==> Fixed(score, THOUSAND) == 1.0
    ensures Fixed(score, THOUSAND) >= 0.55 <==> score >= 0.5495
  {
    FixedExact(0.0, 0, THOUSAND);
    FixedExact(1.0, 1000, THOUSAND);
    FixedMonotone(0.0, score, THOUSAND);
    FixedMonotone(score, 1.0, THOUSAND);
  }

  /** A stored question is eligible exactly when it normalises to the same text, or its embedding reaches
      0.5495, or of the tokens in either text at least that share is in both. */
  lemma EligibleMeaning(
      text: string, existing: string, semantic: real, index: nat, v: seq<string>, w: seq<string>, both: nat,
      either: nat)
    requires semantic <= 1.0
    requires Lists(v, Tokens(Normalize(text))) && Lists(w, Tokens(Normalize(existing)))
    requires both == CountIn(v, w, true) && either == |v| + CountIn(w, v, false)
    ensures Eligible(Assess(text, existing, semantic, index)) <==>
      || Normalize(text) == Normalize(existing)
      || semantic >= 0.5495
      || (v != [] && w != [] && both as real >= 0.5495 * either as real)
  {
    JaccardMeaning(Tokens(Normalize(text)), Tokens(Normalize(existing)));
    SharedReaches(Tokens(Normalize(text)), Tokens(Normalize(existing)), v, w, both, either);
    EligibleScore(text, existing, semantic, index, Fuzzy(text, existing));
  }

  lemma EligibleScore(text: string, existing: string, semantic: real, index: nat, fuzzy: real)
    requires fuzzy == Fuzzy(text, existing) && 0.0 <= fuzzy <= 1.0 && semantic <= 1.0
    ensures Eligible(Assess(text, existing, semantic, index)) <==> fuzzy >= 0.5495 || semantic >= 0.5495
  {
    RoundedScore(Max(fuzzy, semantic));
  }

  lemma SharedReaches(
      a: set<string>, b: set<string>, v: seq<string>, w: seq<string>, both: nat, either: nat)
    requires Lists(v, a) && Lists(w, b)
    requires both == CountIn(v, w, true) && either == |v| + CountIn(w, v, false)
    ensures Jaccard(a, b) >= 0.5495 <==> v != [] && w != [] && both as real >= 0.5495 * either as real
  {
    ListCounts(v, w, a, b);
    if v != [] && w != [] { JaccardReaches(a, b, both, either); }
  }

  lemma JaccardReaches(a: set<string>, b: set<string>, both: nat, either: nat)
    requires |a| > 0 && |b| > 0 && both == |a * b| && either == |a + b|
    ensures Jaccard(a, b) >= 0.5495 <==> both as real >= 0.5495 * either as real
  {
    UnionNonEmpty(a, b);
    QuotientTimes(both as real, either as real);
    ShareReaches(both as real / either as real, either, both);
  }

  lemma ShareReaches(ratio: real, whole: nat, part: nat)
    requires whole > 0 && ratio * whole as real == part as real
    ensures ratio >= 0.5495 <==> part as real >= 0.5495 * whole as real
  {
    if ratio >= 0.5495 {
      ScaleMonotone(0.5495, ratio, whole as real);
    } else {
      assert (0.5495 - ratio) * whole as real > 0.0;
    }
  }

  /** Two questions of three words that share two of them are not candidates on their words alone. */
  lemma TwoOfThree(text: string, existing: string, index: nat, x: string, y: string, z: string, other: string)
    requires Tokens(Normalize(text)) == {x, y, z} && Tokens(Normalize(existing)) == {y, z, other}
    requires Distinct([x, y, z, other])
    ensures Assess(text, existing, 0.0, index).fuzzy == 0.5 && !Eligible(Assess(text, existing, 0.0, index))
  {
    var a, b := Tokens(Normalize(text)), Tokens(Normalize(existing));
    TwoOfFour(a, b, x, y, z, other);
    assert x in a && x !in b;
    FixedExact(0.5, 500, THOUSAND);
  }

  lemma TwoOfFour(a: set<string>, b: set<string>, x: string, y: string, z: string, other: string)
    requires a == {x, y, z} && b == {y, z, other} && Distinct([x, y, z, other])
    ensures Jaccard(a, b) == 0.5 && x !in b
  {
    var four := [x, y, z, other];
    assert four[0] != four[1] && four[0] != four[2] && four[0] != four[3];
    assert four[1] != four[2] && four[1] != four[3] && four[2] != four[3];
    assert a * b == {y, z} && a + b == {x, y, z, other};
    assert |{y, z}| == 2 && |{x, y, z, other}| == 4 && |a| > 0 && |b| > 0;
  }

  // ---- the candidate list ----

  /** How many stored questions are looked at, newest first, and how many candidates are reported. */
  const WINDOW: nat := 100
  const REPORTED: nat := 10

  function Assessed(text: string, stored: seq<string>, embeddings: seq<seq<real>>, sqrt: real -> real): seq<Candidate>
    requires IsSqrt(sqrt)
  {
    var seen := Cut(stored, WINDOW);
    seq(|seen|, i requires 0 <= i < |seen| =>
      Assess(text, seen[i], CosineOf(At(embeddings, 0), At(embeddings, i + 1), sqrt), i))
  }

  predicate Eligible(c: Candidate) {
    c.similarity >= 0.55
  }

  predicate Above(a: Candidate, b: Candidate) {
    a.similarity >= b.similarity
  }

  /** The candidates for a text among the stored questions, newest first; `embeddings` holds the
      text's embedding and then those of the questions. */
  function DuplicateCandidates(text: string, stored: seq<string>, embeddings: seq<seq<real>>,
      sqrt: real -> real): seq<Candidate>
    requires IsSqrt(sqrt)
  {
    Cut(Sort(Filter(Assessed(text, stored, embeddings, sqrt), Eligible), Above), REPORTED)
  }

  ghost predicate Leaves(taken: seq<Candidate>, all: seq<Candidate>, x: Candidate) {
    x in all && x !in taken
  }

  /** `taken` is the descending list of the best `n` of `all`; equal scores keep their order, and the
      earlier one goes first when not all fit. */
  ghost predicate Best(taken: seq<Candidate>, all: seq<Candidate>, n: nat) {
    && |taken| == (if |all| <= n then |all| else n)
    && multiset(taken) <= multiset(all)
    && SortedBy(taken, Above)
    && (forall x, y | y in taken && Leaves(taken, all, x) :: Above(y, x))
    && (forall v :: Filter(taken, Scores(v)) <= Filter(all, Scores(v)))
  }

  function Scores(v: real): Candidate -> bool {
    (c: Candidate) => c.similarity == v
  }

  lemma CutIsAbove(all: seq<Candidate>, n: nat)
    ensures var taken := Cut(Sort(all, Above), n);
      forall x, y | y in taken && Leaves(taken, all, x) :: Above(y, x)
  {
    var sorted := Sort(all, Above);
    var taken := Cut(sorted, n);
    var left := sorted[|taken|..];
    assert sorted == taken + left;
    SortSorted(all, Above);
    forall x, y | y in taken && Leaves(taken, all, x) ensures Above(y, x) {
      SameElements(all, sorted, x);
      assert x in left;
    }
  }

  lemma CutIsBest(all: seq<Candidate>, n: nat)
    ensures Best(Cut(Sort(all, Above), n), all, n)
  {
    var sorted := Sort(all, Above);
    var taken := Cut(sorted, n);
    var left := sorted[|taken|..];
    assert sorted == taken + left;
    SortSorted(all, Above);
    CutIsAbove(all, n);
    forall v ensures Filter(taken, Scores(v)) <= Filter(all, Scores(v)) {
      SortStable(all, Above, Scores(v));
      FilterConcat(taken, left, Scores(v));
    }
  }

  lemma BestDescends(taken: seq<Candidate>, all: seq<Candidate>, n: nat)
    requires Best(taken, all, n)
    ensures forall i, j | 0 <= i < j < |taken| :: taken[i].similarity >= taken[j].similarity
    ensures forall x, y | y in taken && Leaves(taken, all, x) :: y.similarity >= x.similarity
  {
    forall i, j | 0 <= i < j < |taken| ensures taken[i].similarity >= taken[j].similarity {
      assert Above(taken[i], taken[j]);
    }
  }

  /** The reported list is the stable descending top ten of the questions, among the hundred newest,
      whose score before rounding is at least 0.5495. */
  lemma TopTen(text: string, stored: seq<string>, embeddings: seq<seq<real>>, sqrt: real -> real)
    requires IsSqrt(sqrt)
    ensures var assessed := Assessed(text, stored, embeddings, sqrt);
      var taken := DuplicateCandidates(text, stored, embeddings, sqrt);
      && |assessed| == (if |stored| < 100 then |stored| else 100)
      && Best(taken, Filter(assessed, Eligible), 10)
      && (forall i, j | 0 <= i < j < |taken| :: taken[i].similarity >= taken[j].similarity)
      && (forall i | 0 <= i < |assessed| :: assessed[i] in Filter(assessed, Eligible) <==>
            Combined(text, stored[i], CosineOf(At(embeddings, 0), At(embeddings, i + 1), sqrt)) >= 0.5495)
  {
    var assessed := Assessed(text, stored, embeddings, sqrt);
    CutIsBest(Filter(assessed, Eligible), REPORTED);
    BestDescends(DuplicateCandidates(text, stored, embeddings, sqrt), Filter(assessed, Eligible), 10);
    FilterMeaning(assessed, Eligible);
    forall i | 0 <= i < |assessed|
      ensures Eligible(assessed[i]) <==>
        Combined(text, stored[i], CosineOf(At(embeddings, 0), At(embeddings, i + 1), sqrt)) >= 0.5495
    {
      AssessedScore(text, stored, embeddings, sqrt, i);
    }
  }

  lemma AssessedScore(text: string, stored: seq<string>, embeddings: seq<seq<real>>, sqrt: real -> real, i: nat)
    requires IsSqrt(sqrt) && i < |Cut(stored, WINDOW)|
    ensures var c := Assessed(text, stored, embeddings, sqrt)[i];
      && (Eligible(c) <==>
          Combined(text, stored[i], CosineOf(At(embeddings, 0), At(embeddings, i + 1), sqrt)) >= 0.5495)
      && 0.0 <= c.similarity <= 1.0
      && (Normalize(stored[i]) == Normalize(text) ==> c.similarity == 1.0)
  {
    ScoreMeaning(text, stored[i], At(embeddings, 0), At(embeddings, i + 1), sqrt);
    RoundedScore(Combined(text, stored[i], CosineOf(At(embeddings, 0), At(embeddings, i + 1), sqrt)));
  }

  // ---- the best duplicate of a question just saved ----

  /** The stable sort puts the earliest of the highest scores first. */
  lemma FirstIsEarliestBest(all: seq<Candidate>)
    requires all != []
    ensures exists m | 0 <= m < |all| ::
      && Sort(all, Above)[0] == all[m]
      && (forall i | 0 <= i < |all| :: Above(all[m], all[i]))
      && (forall i | 0 <= i < m :: !Above(all[i], all[m]))
  {
    var sorted := Sort(all, Above);
    SortSorted(all, Above);
    var top := Scores(sorted[0].similarity);
    SortStable(all, Above, top);
    assert Filter(sorted, top)[0] == sorted[0];
    var m := FirstMatch(all, top);
    forall i | 0 <= i < |all| ensures Above(all[m], all[i]) {
      assert all[i] in all;
      SameElements(all, sorted, all[i]);
    }
  }

  lemma {:induction false} FirstMatch<T>(s: seq<T>, p: T -> bool) returns (m: nat)
    requires Filter(s, p) != []
    ensures m < |s| && s[m] == Filter(s, p)[0] && p(s[m]) && forall i | 0 <= i < m :: !p(s[i])
  {
    if p(s[0]) {
      m := 0;
    } else {
      m := FirstMatch(s[1..], p);
      m := m + 1;
    }
  }

  /** `recordDuplicateCandidate`: the best candidate is recorded unless it is the new question itself. */
  function Recorded(candidates: seq<Candidate>, newIndex: nat): Option<Candidate> {
    if candidates == [] || candidates[0].index == newIndex then None else Some(candidates[0])
  }

  lemma {:induction false} FilterTwice<T>(s: seq<T>, p: T -> bool, q: T -> bool)
    requires forall x | x in s && q(x) :: p(x)
    ensures Filter(Filter(s, p), q) == Filter(s, q)
  {
    if s != [] {
      assert s == [s[0]] + s[1..];
      FilterTwice(s[1..], p, q);
    }
  }

  /** The best candidate is the earliest question of the window with the highest similarity. */
  lemma BestInWindow(assessed: seq<Candidate>) returns (b: nat)
    requires Filter(assessed, Eligible) != []
    ensures b < |assessed| && Sort(Filter(assessed, Eligible), Above)[0] == assessed[b]
    ensures forall i | 0 <= i < |assessed| :: assessed[i].similarity <= assessed[b].similarity
    ensures forall i | 0 <= i < b :: assessed[i].similarity < assessed[b].similarity
  {
    var all := Filter(assessed, Eligible);
    var sorted := Sort(all, Above);
    var v := sorted[0].similarity;
    FilterMeaning(assessed, Eligible);
    SortSorted(all, Above);
    SameElements(all, sorted, sorted[0]);
    SortStable(all, Above, Scores(v));
    assert Filter(sorted, Scores(v))[0] == sorted[0];
    FilterTwice(assessed, Eligible, Scores(v));
    b := FirstMatch(assessed, Scores(v));
    forall i | 0 <= i < |assessed| ensures assessed[i].similarity <= v {
      if Eligible(assessed[i]) {
        assert assessed[i] in all;
        SameElements(all, sorted, assessed[i]);
      }
    }
  }

  lemma Perfection(assessed: seq<Candidate>, m: nat)
    requires forall i | 0 <= i < |assessed| :: assessed[i].index == i && assessed[i].similarity <= 1.0
    requires m < |assessed| && assessed[m].similarity == 1.0
    ensures var candidates := Cut(Sort(Filter(assessed, Eligible), Above), REPORTED);
      && candidates != [] && candidates[0].index <= m && candidates[0].similarity == 1.0
      && candidates[0] == assessed[candidates[0].index]
      && (Recorded(candidates, m) == None <==> forall j | 0 <= j < m :: assessed[j].similarity != 1.0)
  {
    FilterMeaning(assessed, Eligible);
    assert assessed[m] in Filter(assessed, Eligible);
    var b := BestInWindow(assessed);
    assert assessed[b].similarity == 1.0;
  }

  lemma Outside(assessed: seq<Candidate>, m: nat)
    requires forall i | 0 <= i < |assessed| :: assessed[i].index == i
    requires |assessed| <= m
    ensures var candidates := Cut(Sort(Filter(assessed, Eligible), Above), REPORTED);
      Recorded(candidates, m) == None <==> forall j | 0 <= j < |assessed| :: !Eligible(assessed[j])
  {
    FilterMeaning(assessed, Eligible);
    if Filter(assessed, Eligible) != [] {
      var b := BestInWindow(assessed);
      SameElements(Filter(assessed, Eligible), Sort(Filter(assessed, Eligible), Above), assessed[b]);
      assert assessed[b] in Filter(assessed, Eligible);
    } else {
      forall j | 0 <= j < |assessed| ensures !Eligible(assessed[j]) {
        assert assessed[j] !in Filter(assessed, Eligible);
      }
    }
  }

  lemma AllScored(text: string, stored: seq<string>, embeddings: seq<seq<real>>, sqrt: real -> real)
    requires IsSqrt(sqrt)
    ensures var assessed := Assessed(text, stored, embeddings, sqrt);
      && |assessed| == |Cut(stored, WINDOW)|
      && (forall i | 0 <= i < |assessed| :: assessed[i].index == i && assessed[i].similarity <= 1.0)
      && (forall i | 0 <= i < |assessed| && stored[i] == text ::
            assessed[i].similarity == 1.0 && assessed[i].reason == ExactNormalizedMatch)
  {
    forall i | 0 <= i < |Cut(stored, WINDOW)|
      ensures var c := Assessed(text, stored, embeddings, sqrt)[i];
        && c.index == i && c.similarity <= 1.0
        && (stored[i] == text ==> c.similarity == 1.0 && c.reason == ExactNormalizedMatch)
    {
      AssessedAt(text, stored, embeddings, sqrt, i);
      AssessedScore(text, stored, embeddings, sqrt, i);
    }
  }

  lemma AssessedAt(text: string, stored: seq<string>, embeddings: seq<seq<real>>, sqrt: real -> real, i: nat)
    requires IsSqrt(sqrt) && i < |Cut(stored, WINDOW)|
    ensures var c := Assessed(text, stored, embeddings, sqrt)[i];
      c.index == i && (stored[i] == text ==> c.reason == ExactNormalizedMatch)
  {
  }

  /** A question is looked up after it is stored, so it meets itself. In the window, nothing is recorded if
      and only if no more recently updated question of the window reaches a rounded similarity of 1; outside
      the window, if and only if no question of the window is eligible. */
  lemma DuplicateOfStored(text: string, stored: seq<string>, m: nat, embeddings: seq<seq<real>>, sqrt: real -> real)
    requires IsSqrt(sqrt) && m < |stored| && stored[m] == text
    ensures var assessed := Assessed(text, stored, embeddings, sqrt);
      var candidates := DuplicateCandidates(text, stored, embeddings, sqrt);
      Recorded(candidates, m) == None <==>
        if m < WINDOW then forall j | 0 <= j < m :: assessed[j].similarity != 1.0
        else forall j | 0 <= j < |assessed| :: !Eligible(assessed[j])
  {
    var assessed := Assessed(text, stored, embeddings, sqrt);
    AllScored(text, stored, embeddings, sqrt);
    if m < WINDOW {
      Perfection(assessed, m);
    } else {
      Outside(assessed, m);
    }
  }

  /** So the question updated last is its own best duplicate and none is ever recorded for it. */
  lemma SavedQuestionFindsItself(text: string, stored: seq<string>, embeddings: seq<seq<real>>, sqrt: real -> real)
    requires IsSqrt(sqrt) && stored != [] && stored[0] == text
    ensures var candidates := DuplicateCandidates(text, stored, embeddings, sqrt);
      && candidates != [] && candidates[0].index == 0 && candidates[0].similarity == 1.0
      && candidates[0].reason == ExactNormalizedMatch
      && Recorded(candidates, 0) == None
  {
    AllScored(text, stored, embeddings, sqrt);
    Perfection(Assessed(text, stored, embeddings, sqrt), 0);
  }
}
