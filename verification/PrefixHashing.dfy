/** Prefix hashing. The digest is a function `sha` on text, injective where a
    property needs it to be free of collisions; `isWord` is the `\w` class. */
module PrefixHashing {
  import opened RealArithmetic
  import opened Common

  type Digest = string -> string

  ghost predicate Injective(sha: Digest) {
    forall x, y :: sha(x) == sha(y) ==> x == y
  }

  /** `text[:n]`. */
  function Take(text: string, n: nat): string {
    if n < |text| then text[..n] else text
  }

  function Sha256Hash(sha: Digest, text: string, length: nat): string {
    sha(Take(text, length))
  }

  // --------------------------------------------------------------- tokens

  /** Where the token starting at `i` ends: a maximal run of word characters, or
      one other character. */
  function TokenEnd(isWord: char -> bool, text: string, i: nat): (end: nat)
    requires i < |text|
    ensures i < end <= |text|
    decreases |text| - i
  {
    if i + 1 < |text| && isWord(text[i]) && isWord(text[i + 1]) then TokenEnd(isWord, text, i + 1) else i + 1
  }

  function TokensFrom(isWord: char -> bool, text: string, i: nat): seq<string>
    requires i <= |text|
    decreases |text| - i
  {
    if i == |text| then []
    else
      var end := TokenEnd(isWord, text, i);
      [text[i..end]] + TokensFrom(isWord, text, end)
  }

  /** A place no word runs across. */
  predicate Boundary(isWord: char -> bool, text: string, k: nat) {
    k <= |text| && (k == 0 || k == |text| || !isWord(text[k - 1]) || !isWord(text[k]))
  }

  /** The last boundary that is not behind `n`. */
  function LastBoundary(isWord: char -> bool, text: string, n: nat): (k: nat)
    requires n <= |text|
    ensures k <= n && Boundary(isWord, text, k)
    ensures forall j :: k < j <= n ==> !Boundary(isWord, text, j)
  {
    if Boundary(isWord, text, n) then n else LastBoundary(isWord, text, n - 1)
  }

  /** How much of the text goes into the hash. */
  function Cut(isWord: char -> bool, text: string, length: nat): nat {
    if length >= |text| then |text|
    else
      var k := LastBoundary(isWord, text, length);
      if 10 * k < 8 * length then length else k
  }

  function TokenAwareHash(isWord: char -> bool, sha: Digest, text: string, length: nat): string {
    sha(Take(text, Cut(isWord, text, length)))
  }

  /** Tokens start and end at boundaries, with none in between. */
  lemma {:induction false} TokenIsTight(isWord: char -> bool, text: string, i: nat)
    requires i < |text|
    ensures Boundary(isWord, text, TokenEnd(isWord, text, i))
    ensures forall j :: i < j < TokenEnd(isWord, text, i) ==> !Boundary(isWord, text, j)
    decreases |text| - i
  {
    if i + 1 < |text| && isWord(text[i]) && isWord(text[i + 1]) { TokenIsTight(isWord, text, i + 1); }
  }

  /** After the tokens that end at `at` comes the one from there to the next
      boundary. */
  lemma NextToken(isWord: char -> bool, text: string, tokens: seq<string>, i: nat, at: nat)
    requires i <= |tokens| && at < |text| && Boundary(isWord, text, at) && tokens[i..] == TokensFrom(isWord, text, at)
    ensures var end := TokenEnd(isWord, text, at);
            && i < |tokens| && tokens[i] == text[at..end] && tokens[i + 1..] == TokensFrom(isWord, text, end)
            && Boundary(isWord, text, end) && forall k :: at < k < end ==> !Boundary(isWord, text, k)
  {
    TokenIsTight(isWord, text, at);
    assert tokens[i] == tokens[i..][0] && tokens[i + 1..] == tokens[i..][1..];
  }

  /** The token loop: take whole tokens while they fit, fall back to the plain
      prefix if that is more than a fifth short. */
  method HashPrefix(isWord: char -> bool, sha: Digest, text: string, length: nat) returns (hash: string)
    ensures hash == TokenAwareHash(isWord, sha, text, length)
  {
    if length >= |text| { return sha(Take(text, length)); }
    var tokens := TokensFrom(isWord, text, 0);
    var prefixChars: nat := 0;
    var tokenPrefix := "";
    var i := 0;
    while i < |tokens| && prefixChars + |tokens[i]| <= length
      invariant i <= |tokens|
      invariant prefixChars <= length && Boundary(isWord, text, prefixChars)
      invariant tokenPrefix == text[..prefixChars]
      invariant tokens[i..] == TokensFrom(isWord, text, prefixChars)
    {
      NextToken(isWord, text, tokens, i, prefixChars);
      tokenPrefix := tokenPrefix + tokens[i];
      prefixChars := prefixChars + |tokens[i]|;
      i := i + 1;
    }
    NextToken(isWord, text, tokens, i, prefixChars);
    assert LastBoundary(isWord, text, length) == prefixChars;
    assert Take(text, prefixChars) == tokenPrefix;
    if 10 * prefixChars < 8 * length { return sha(Take(text, length)); }
    hash := sha(Take(tokenPrefix, |tokenPrefix|));
  }

  /** At most a fifth of the requested length is given up to alignment. */
  lemma CutBounds(isWord: char -> bool, text: string, length: nat)
    ensures Cut(isWord, text, length) <= |text|
    ensures length < |text| ==> 8 * length <= 10 * Cut(isWord, text, length) && Cut(isWord, text, length) <= length
  {
  }

  // ------------------------------------------------------------- locality

  lemma {:induction false} LastBoundaryLocal(isWord: char -> bool, t: string, u: string, n: nat)
    requires n < |t| && n < |u| && t[..n + 1] == u[..n + 1]
    ensures LastBoundary(isWord, t, n) == LastBoundary(isWord, u, n)
  {
    assert t[n] == t[..n + 1][n] && u[n] == u[..n + 1][n];
    if n > 0 {
      assert t[n - 1] == t[..n + 1][n - 1] && u[n - 1] == u[..n + 1][n - 1];
      assert t[..n] == t[..n + 1][..n] && u[..n] == u[..n + 1][..n];
      LastBoundaryLocal(isWord, t, u, n - 1);
    }
  }

  /** Two texts longer than L that agree on their first L + 1 characters hash
      alike at length L, whatever the digest. */
  lemma HashIsLocal(isWord: char -> bool, sha: Digest, t: string, u: string, length: nat)
    requires length < |t| && length < |u| && t[..length + 1] == u[..length + 1]
    ensures TokenAwareHash(isWord, sha, t, length) == TokenAwareHash(isWord, sha, u, length)
  {
    LastBoundaryLocal(isWord, t, u, length);
    var k := Cut(isWord, t, length);
    assert t[..k] == t[..length + 1][..k] && u[..k] == u[..length + 1][..k];
  }

  /** A cut at most at the length is all the hash of agreeing texts depends on. */
  lemma SameHashSameCut(isWord: char -> bool, sha: Digest, t: string, u: string, n: nat)
    requires Injective(sha) && n <= |t| && n <= |u| && t[..n] == u[..n]
    ensures TokenAwareHash(isWord, sha, t, n) == TokenAwareHash(isWord, sha, u, n)
            <==> Cut(isWord, t, n) == Cut(isWord, u, n)
  {
    var i, j := Cut(isWord, t, n), Cut(isWord, u, n);
    assert i <= n && j <= n;
    assert Take(t, i) == t[..n][..i] && Take(u, j) == u[..n][..j];
  }

  /** Texts that agree on their first n characters hash alike at length n exactly
      if n is a token boundary in both or in neither, or the boundary before it
      is too far back to be used. */
  lemma AgreeingTextsHashAlikeExactly(isWord: char -> bool, sha: Digest, t: string, u: string, n: nat)
    requires Injective(sha) && n <= |t| && n <= |u| && t[..n] == u[..n]
    ensures TokenAwareHash(isWord, sha, t, n) == TokenAwareHash(isWord, sha, u, n)
            <==> (Boundary(isWord, t, n) <==> Boundary(isWord, u, n)) || 10 * LastBoundary(isWord, t, n - 1) < 8 * n
  {
    SameHashSameCut(isWord, sha, t, u, n);
    if n > 0 {
      assert t[..n - 1 + 1] == u[..n - 1 + 1];
      LastBoundaryLocal(isWord, t, u, n - 1);
      CutByBoundary(isWord, t, n);
      CutByBoundary(isWord, u, n);
    }
  }

  lemma CutByBoundary(isWord: char -> bool, t: string, n: nat)
    requires 0 < n <= |t|
    ensures var k := LastBoundary(isWord, t, n - 1);
            k < n && Cut(isWord, t, n) == if Boundary(isWord, t, n) || 10 * k < 8 * n then n else k
  {
  }

  /** For longer texts only the next character matters, and only in the middle of
      a word: it decides whether the last token is whole. */
  lemma NextCharacterDecides(isWord: char -> bool, sha: Digest, t: string, u: string, n: nat)
    requires Injective(sha) && n < |t| && n < |u| && t[..n] == u[..n]
    ensures TokenAwareHash(isWord, sha, t, n) == TokenAwareHash(isWord, sha, u, n)
            <==> || n == 0 || !isWord(t[n - 1]) || isWord(t[n]) == isWord(u[n])
                 || 10 * LastBoundary(isWord, t, n - 1) < 8 * n
  {
    AgreeingTextsHashAlikeExactly(isWord, sha, t, u, n);
    assert n > 0 ==> t[n - 1] == t[..n][n - 1] && u[n - 1] == u[..n][n - 1];
  }

  /** So agreeing on L characters is not enough. */
  lemma SameLengthIsNotEnough(isWord: char -> bool, sha: Digest)
    requires Injective(sha) && isWord('a') && !isWord(' ')
    ensures var t, u, n := "aaaa aa", "aaaa a ", 6;
            && n < |t| && n < |u| && t[..n] == u[..n]
            && TokenAwareHash(isWord, sha, t, n) != TokenAwareHash(isWord, sha, u, n)
  {
    var t, u := "aaaa aa", "aaaa a ";
    assert t[..6] == "aaaa a" == u[..6];
    assert Boundary(isWord, t, 5) && LastBoundary(isWord, t, 5) == 5;
    NextCharacterDecides(isWord, sha, t, u, 6);
  }

  // ------------------------------------------- longer prefixes refine shorter

  /** Equal hashes at some length are equal at every shorter length. */
  ghost predicate Refining(hash: (string, nat) -> string) {
    forall t, u, a: nat, b: nat :: a <= b && hash(t, b) == hash(u, b) ==> hash(t, a) == hash(u, a)
  }

  lemma TakeRefines(t: string, u: string, a: nat, b: nat)
    requires a <= b && Take(t, b) == Take(u, b)
    ensures Take(t, a) == Take(u, a)
  {
    assert Take(Take(t, b), a) == Take(t, a);
    assert Take(Take(u, b), a) == Take(u, a);
  }

  /** The texts are the same up to `n`: equally many characters, and the same. */
  predicate SameStart(t: string, u: string, n: nat) {
    && (if |t| < n then |t| else n) == (if |u| < n then |u| else n)
    && forall i :: 0 <= i < |t| && i < |u| && i < n ==> t[i] == u[i]
  }

  lemma TakeSameStart(t: string, u: string, n: nat)
    ensures Take(t, n) == Take(u, n) <==> SameStart(t, u, n)
  {
    var x, y := Take(t, n), Take(u, n);
    assert forall i :: 0 <= i < |x| ==> x[i] == t[i];
    assert forall i :: 0 <= i < |y| ==> y[i] == u[i];
  }

  /** Plain hashes are equal exactly for texts that are the same up to the length. */
  lemma Sha256Exactly(sha: Digest, t: string, u: string, length: nat)
    requires Injective(sha)
    ensures Sha256Hash(sha, t, length) == Sha256Hash(sha, u, length) <==> SameStart(t, u, length)
  {
    TakeSameStart(t, u, length);
  }

  lemma Sha256Refines(sha: Digest)
    requires Injective(sha)
    ensures Refining((t: string, n: nat) => Sha256Hash(sha, t, n))
  {
    forall t, u, a: nat, b: nat | a <= b && Sha256Hash(sha, t, b) == Sha256Hash(sha, u, b)
      ensures Sha256Hash(sha, t, a) == Sha256Hash(sha, u, a)
    {
      TakeRefines(t, u, a, b);
    }
  }

  /** A text cut at `k` for length `b` is cut at `k` for every length from `k` to `b`. */
  lemma CutBetween(isWord: char -> bool, t: string, a: nat, b: nat)
    requires Cut(isWord, t, b) <= a <= b
    ensures Cut(isWord, t, a) == Cut(isWord, t, b)
  {
    if b < |t| {
      var k := LastBoundary(isWord, t, b);
      if a < b {
        assert k <= a;
        assert LastBoundary(isWord, t, a) == k;
      }
    }
  }

  /** The token-aware hash refines too, although a cut depends on the text
      behind the prefix that is hashed. */
  lemma TokenAwareRefinesAt(isWord: char -> bool, sha: Digest, t: string, u: string, a: nat, b: nat)
    requires Injective(sha) && a <= b
    requires TokenAwareHash(isWord, sha, t, b) == TokenAwareHash(isWord, sha, u, b)
    ensures TokenAwareHash(isWord, sha, t, a) == TokenAwareHash(isWord, sha, u, a)
  {
    var k := Cut(isWord, t, b);
    assert Take(t, k) == Take(u, Cut(isWord, u, b));
    assert |Take(t, k)| == k && k == Cut(isWord, u, b);
    if k <= a {
      CutBetween(isWord, t, a, b);
      CutBetween(isWord, u, a, b);
    } else {
      assert t[..a + 1] == Take(t, k)[..a + 1] && u[..a + 1] == Take(u, k)[..a + 1];
      if a < |t| && a < |u| { HashIsLocal(isWord, sha, t, u, a); }
    }
  }

  lemma TokenAwareRefines(isWord: char -> bool, sha: Digest)
    requires Injective(sha)
    ensures Refining((t: string, n: nat) => TokenAwareHash(isWord, sha, t, n))
  {
    forall t, u, a: nat, b: nat | a <= b && TokenAwareHash(isWord, sha, t, b) == TokenAwareHash(isWord, sha, u, b)
      ensures TokenAwareHash(isWord, sha, t, a) == TokenAwareHash(isWord, sha, u, a)
    {
      TokenAwareRefinesAt(isWord, sha, t, u, a, b);
    }
  }

  // ------------------------------------------------------------ hierarchical

  const DEFAULT_LEVELS: seq<nat> := [64, 256, 1024]

  predicate Ascending(levels: seq<nat>) {
    forall i, j :: 0 <= i < j < |levels| ==> levels[i] <= levels[j]
  }

  /** The smallest level that is long enough, given as a scan. */
  function SmallestFrom(levels: seq<nat>, length: nat, default: nat): (r: nat)
    ensures if exists l :: l in levels && l >= length
            then r in levels && r >= length && forall l :: l in levels && l >= length ==> r <= l
            else r == default
  {
    if levels == [] then default
    else
      var rest := SmallestFrom(levels[1..], length, default);
      var l := levels[0];
      assert levels == [l] + levels[1..];
      if l < length then rest
      else if exists m :: m in levels[1..] && m >= length && m < l then rest else l
  }

  /** No levels means the default ones. */
  function LevelsOf(levels: seq<nat>): (r: seq<nat>)
    ensures r != []
  {
    if levels == [] then DEFAULT_LEVELS else levels
  }

  function LevelFor(levels: seq<nat>, length: nat): nat {
    var ls := LevelsOf(levels);
    SmallestFrom(ls, length, ls[|ls| - 1])
  }

  /** The level is the smallest of the list that is long enough, or else the last;
      without a list 64, 256 and 1024. */
  lemma LevelIsSmallest(levels: seq<nat>, length: nat)
    ensures var ls, level := if levels == [] then [64, 256, 1024] else levels, LevelFor(levels, length);
            && level in ls
            && (level < length ==> level == ls[|ls| - 1] && forall l :: l in ls ==> l < length)
            && (level >= length ==> forall l :: l in ls && l >= length ==> level <= l)
  {
    var ls := LevelsOf(levels);
    assert ls[|ls| - 1] in ls;
  }

  /** Hierarchical hashes are equal exactly for texts that are the same up to it. */
  lemma HierarchicalExactly(sha: Digest, levels: seq<nat>, t: string, u: string, length: nat)
    requires Injective(sha)
    ensures HierarchicalHash(sha, levels, t, length) == HierarchicalHash(sha, levels, u, length) <==>
              SameStart(t, u, LevelFor(levels, length))
  {
    TakeSameStart(t, u, LevelFor(levels, length));
  }

  function HierarchicalHash(sha: Digest, levels: seq<nat>, text: string, length: nat): string {
    Sha256Hash(sha, text, LevelFor(levels, length))
  }

  predicate LastIsGreatest(levels: seq<nat>)
    requires levels != []
  {
    forall i :: 0 <= i < |levels| ==> levels[i] <= levels[|levels| - 1]
  }

  /** With ascending levels the last one is the greatest. */
  lemma AscendingLast(levels: seq<nat>)
    requires Ascending(levels)
    ensures LastIsGreatest(LevelsOf(levels))
  {
  }

  /** A longer request never gets a shorter level, exactly if the last level is
      the greatest, in whatever order the others come. */
  lemma LevelIsMonotone(levels: seq<nat>)
    ensures (forall a: nat, b: nat :: a <= b ==> LevelFor(levels, a) <= LevelFor(levels, b))
            <==> LastIsGreatest(LevelsOf(levels))
  {
    var ls := LevelsOf(levels);
    var last := ls[|ls| - 1];
    if LastIsGreatest(ls) {
      forall a: nat, b: nat | a <= b ensures LevelFor(levels, a) <= LevelFor(levels, b) { LevelRises(levels, a, b); }
    } else {
      var a, b := LevelFalls(levels);
    }
  }

  lemma LevelRises(levels: seq<nat>, a: nat, b: nat)
    requires LastIsGreatest(LevelsOf(levels)) && a <= b
    ensures LevelFor(levels, a) <= LevelFor(levels, b)
  {
    var ls := LevelsOf(levels);
    var last := ls[|ls| - 1];
    assert last in ls;
    if l :| l in ls && l >= b { assert l >= a; }
  }

  /** Past the greatest level comes the last one, even if it is smaller. */
  lemma LevelFalls(levels: seq<nat>) returns (a: nat, b: nat)
    requires !LastIsGreatest(LevelsOf(levels))
    ensures a <= b && LevelFor(levels, a) > LevelFor(levels, b)
  {
    var ls := LevelsOf(levels);
    var i :| 0 <= i < |ls| && ls[i] > ls[|ls| - 1];
    var m := Greatest(ls);
    assert ls[i] in ls;
    a, b := m, m + 1;
    assert m in ls && m >= a;
  }

  lemma {:induction false} Greatest(levels: seq<nat>) returns (m: nat)
    requires levels != []
    ensures m in levels && forall l :: l in levels ==> l <= m
  {
    m := levels[0];
    if |levels| > 1 {
      var n := Greatest(levels[1..]);
      assert levels == [levels[0]] + levels[1..];
      if n > m { m := n; }
    }
  }

  lemma HierarchicalRefinesAt(sha: Digest, levels: seq<nat>)
    requires Injective(sha) && LastIsGreatest(LevelsOf(levels))
    ensures Refining((t: string, n: nat) => HierarchicalHash(sha, levels, t, n))
  {
    forall t, u, a: nat, b: nat | a <= b && HierarchicalHash(sha, levels, t, b) == HierarchicalHash(sha, levels, u, b)
      ensures HierarchicalHash(sha, levels, t, a) == HierarchicalHash(sha, levels, u, a)
    {
      LevelRises(levels, a, b);
      TakeRefines(t, u, LevelFor(levels, a), LevelFor(levels, b));
    }
  }

  function Spaces(n: nat): string { seq(n, _ => ' ') }

  /** Equal hierarchical hashes at a length are equal at every shorter length,
      for all texts and lengths, exactly if the last level is the greatest. */
  lemma HierarchicalRefines(sha: Digest, levels: seq<nat>)
    requires Injective(sha)
    ensures Refining((t: string, n: nat) => HierarchicalHash(sha, levels, t, n)) <==> LastIsGreatest(LevelsOf(levels))
  {
    if LastIsGreatest(LevelsOf(levels)) {
      HierarchicalRefinesAt(sha, levels);
    } else {
      var a, b := LevelFalls(levels);
      var t, u := Spaces(LevelFor(levels, b)), Spaces(LevelFor(levels, a));
      var hash := (t: string, n: nat) => HierarchicalHash(sha, levels, t, n);
      assert Take(t, LevelFor(levels, b)) == Take(u, LevelFor(levels, b));
      assert hash(t, b) == hash(u, b);
      assert |Take(t, LevelFor(levels, a))| != |Take(u, LevelFor(levels, a))|;
      assert hash(t, a) != hash(u, a);
    }
  }

  /** Sorted levels always do. */
  lemma SortedLevelsRefine(sha: Digest, levels: seq<nat>)
    requires Injective(sha) && Ascending(levels)
    ensures Refining((t: string, n: nat) => HierarchicalHash(sha, levels, t, n))
  {
    AscendingLast(levels);
    HierarchicalRefinesAt(sha, levels);
  }

  // ------------------------------------------------------------ distribution

  datatype Lengths = Lengths(routing: nat, cache: nat, cluster: nat)

  datatype Distribution = Distribution(
    total: nat, routing: nat, cache: nat, cluster: nat,
    routingCollisions: real, cacheCollisions: real, clusterCollisions: real, clusterSize: real)
    | ZeroDivision

  function Hashes(hash: (string, nat) -> string, texts: seq<string>, length: nat): set<string> {
    set t | t in texts :: hash(t, length)
  }

  function Analyze(hash: (string, nat) -> string, lengths: Lengths, texts: seq<string>): Distribution {
    if texts == [] then ZeroDivision
    else
      var n := |texts| as real;
      var r, c, k := |Hashes(hash, texts, lengths.routing)|, |Hashes(hash, texts, lengths.cache)|,
                     |Hashes(hash, texts, lengths.cluster)|;
      if k == 0 then ZeroDivision
      else Distribution(|texts|, r, c, k, 1.0 - r as real / n, 1.0 - c as real / n, 1.0 - k as real / n, n / k as real)
  }

  lemma {:induction false} HashCount(hash: (string, nat) -> string, texts: seq<string>, length: nat)
    ensures |Hashes(hash, texts, length)| <= |texts|
    ensures texts != [] ==> |Hashes(hash, texts, length)| > 0
  {
    if texts != [] {
      HashCount(hash, texts[1..], length);
      assert texts == [texts[0]] + texts[1..];
      assert Hashes(hash, texts, length) == Hashes(hash, texts[1..], length) + {hash(texts[0], length)};
    }
  }

  /** The image of a map has no more members than its domain. */
  lemma {:induction false} ImageCount(g: map<string, string>)
    ensures |g.Values| <= |g.Keys|
    decreases |g.Keys|
  {
    if g.Keys != {} {
      var x :| x in g.Keys;
      var rest := g - {x};
      assert rest.Keys == g.Keys - {x};
      ImageCount(rest);
      forall v | v in g.Values ensures v in rest.Values + {g[x]} {
        var k :| k in g && g[k] == v;
        if k != x { assert k in rest && rest[k] == v; }
      }
      SubsetCount(g.Values, rest.Values + {g[x]});
    }
  }

  ghost function SomeText(hash: (string, nat) -> string, texts: seq<string>, length: nat, h: string): (t: string)
    requires h in Hashes(hash, texts, length)
    ensures t in texts && hash(t, length) == h
  {
    var t :| t in texts && hash(t, length) == h;
    t
  }

  /** A refining hash separates no more texts at a shorter length. */
  lemma ShorterSeparatesLess(hash: (string, nat) -> string, texts: seq<string>, a: nat, b: nat)
    requires Refining(hash) && a <= b
    ensures |Hashes(hash, texts, a)| <= |Hashes(hash, texts, b)|
  {
    var g := map h | h in Hashes(hash, texts, b) :: hash(SomeText(hash, texts, b, h), a);
    assert g.Keys == Hashes(hash, texts, b);
    forall x | x in Hashes(hash, texts, a) ensures x in g.Values {
      var t :| t in texts && hash(t, a) == x;
      var h := hash(t, b);
      assert h in g.Keys && g[h] == x;
    }
    SubsetCount(Hashes(hash, texts, a), g.Values);
    ImageCount(g);
  }

  /** Each count is that of the different hashes at its length, and each rate the
      share of texts beyond them. */
  ghost predicate CountsOf(d: Distribution, hash: (string, nat) -> string, lengths: Lengths, texts: seq<string>)
    requires d.Distribution?
  {
    var n := |texts| as real;
    && d.routing == |set t | t in texts :: hash(t, lengths.routing)|
    && d.cache == |set t | t in texts :: hash(t, lengths.cache)|
    && d.cluster == |set t | t in texts :: hash(t, lengths.cluster)|
    && d.routingCollisions * n == n - d.routing as real
    && d.cacheCollisions * n == n - d.cache as real
    && d.clusterCollisions * n == n - d.cluster as real
  }

  lemma ShareBeyond(n: real, k: real)
    requires n > 0.0
    ensures (1.0 - k / n) * n == n - k
  {
    var q := k / n;
    assert q * n == k;
  }

  lemma CountsAreOf(hash: (string, nat) -> string, lengths: Lengths, texts: seq<string>)
    requires Analyze(hash, lengths, texts).Distribution?
    ensures CountsOf(Analyze(hash, lengths, texts), hash, lengths, texts)
  {
    var d := Analyze(hash, lengths, texts);
    ShareBeyond(|texts| as real, d.routing as real);
    ShareBeyond(|texts| as real, d.cache as real);
    ShareBeyond(|texts| as real, d.cluster as real);
  }

  /** For every hasher that refines and lengths ordered cluster, cache, routing,
      the counts are ordered the same way, within the number of texts; only the
      empty list divides by zero. */
  lemma DistributionIsOrdered(hash: (string, nat) -> string, lengths: Lengths, texts: seq<string>)
    requires Refining(hash) && lengths.cluster <= lengths.cache <= lengths.routing
    ensures var d := Analyze(hash, lengths, texts);
            && (d.ZeroDivision? <==> texts == [])
            && (d.Distribution? ==> 1 <= d.cluster <= d.cache <= d.routing <= d.total == |texts|)
            && (d.Distribution? ==>
                  && 0.0 <= d.routingCollisions <= d.cacheCollisions <= d.clusterCollisions < 1.0
                  && 1.0 <= d.clusterSize <= |texts| as real
                  && d.clusterSize * (1.0 - d.clusterCollisions) == 1.0)
            && (d.Distribution? ==> CountsOf(d, hash, lengths, texts))
  {
    HashCount(hash, texts, lengths.cluster);
    HashCount(hash, texts, lengths.routing);
    ShorterSeparatesLess(hash, texts, lengths.cluster, lengths.cache);
    ShorterSeparatesLess(hash, texts, lengths.cache, lengths.routing);
    if texts != [] {
      RatesAreOrdered(Analyze(hash, lengths, texts), |texts|);
      CountsAreOf(hash, lengths, texts);
    }
  }

  /** The rates and the mean cluster size follow the counts. */
  lemma RatesAreOrdered(d: Distribution, n: nat)
    requires d.Distribution? && 1 <= d.cluster <= d.cache <= d.routing <= n
    requires d.routingCollisions == 1.0 - d.routing as real / n as real
    requires d.cacheCollisions == 1.0 - d.cache as real / n as real
    requires d.clusterCollisions == 1.0 - d.cluster as real / n as real && d.clusterSize == n as real / d.cluster as real
    ensures 0.0 <= d.routingCollisions <= d.cacheCollisions <= d.clusterCollisions < 1.0
    ensures 1.0 <= d.clusterSize <= n as real && d.clusterSize * (1.0 - d.clusterCollisions) == 1.0
  {
    QuotientMonotone(d.cluster as real, d.cache as real, n as real);
    QuotientMonotone(d.cache as real, d.routing as real, n as real);
    QuotientMonotone(d.routing as real, n as real, n as real);
    MeanSize(n as real, d.cluster as real);
  }

  lemma MeanSize(n: real, k: real)
    requires 1.0 <= k <= n
    ensures 1.0 <= n / k <= n && 0.0 < k / n && n / k * (k / n) == 1.0
  {
    var p, q := n / k, k / n;
    assert p * k == n && q * n == k;
    QuotientMonotone(k, n, k);
    ProductNonNegative(k - 1.0, p);
    assert p * q * n == p * k;
    assert (p * q - 1.0) * n == 0.0;
  }
}
