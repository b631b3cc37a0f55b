/** Cache keys as text: the storage form, its parser, the namespaced Redis keys
    and the pattern used to look entries up by prefix hash. */
module CacheKeys {
  import opened Common
  import opened TextKeys

  const HASH_LENGTH := 64

  datatype CacheKey = CacheKey(prefixHash: string, modelName: string, sequenceLength: int) {

    /** The field validators. */
    predicate Valid() {
      |prefixHash| == HASH_LENGTH && sequenceLength >= 1
    }

    function ToString(): string
      requires Valid()
    {
      modelName + ":" + prefixHash + ":" + Decimal(sequenceLength)
    }
  }

  datatype Parsed = Parsed(key: CacheKey) | ValueError

  /** The parser: three parts, a number, and the field validators. */
  function FromString(text: string): Parsed {
    var parts := Split(text);
    if |parts| != 3 then ValueError
    else
      var n := ParseInt(parts[2]);
      if n.None? then ValueError
      else
        var key := CacheKey(parts[1], parts[0], n.value);
        if key.Valid() then Parsed(key) else ValueError
  }

  lemma SplitKey(k: CacheKey)
    requires k.Valid()
    ensures Split(k.ToString()) == Split(k.modelName) + Split(k.prefixHash) + [Decimal(k.sequenceLength)]
  {
    ParseDecimal(k.sequenceLength);
    SplitWhole(Decimal(k.sequenceLength));
    SplitAppend(k.modelName + ":" + k.prefixHash, Decimal(k.sequenceLength));
    SplitAppend(k.modelName, k.prefixHash);
  }

  /** The parser undoes the text form exactly when neither the model name nor
      the hash contains a colon; otherwise it rejects the text. */
  lemma FromStringInverts(k: CacheKey)
    requires k.Valid()
    ensures FromString(k.ToString()) ==
            if ':' in k.modelName || ':' in k.prefixHash then ValueError else Parsed(k)
  {
    SplitKey(k);
    SplitWhole(k.modelName);
    SplitWhole(k.prefixHash);
    ParseDecimal(k.sequenceLength);
  }

  /** What the parser accepts, read back: the same text, except that the number
      comes out in its plain decimal form. */
  lemma AcceptedText(text: string)
    requires FromString(text).Parsed?
    ensures var k := FromString(text).key;
            && k.Valid() && ':' !in k.modelName && ':' !in k.prefixHash
            && ParseInt(Split(text)[2]) == Some(k.sequenceLength)
            && (k.ToString() == text <==> Split(text)[2] == Decimal(k.sequenceLength))
            && text == k.modelName + ":" + k.prefixHash + ":" + Split(text)[2]
  {
    var parts := Split(text);
    var k := FromString(text).key;
    JoinSplit(text);
    JoinThree(parts);
    assert text == k.modelName + ":" + k.prefixHash + ":" + parts[2];
    SegmentsHaveNoColon(text);
    if k.ToString() == text { SameSuffix(k.modelName + ":" + k.prefixHash, Decimal(k.sequenceLength), parts[2]); }
  }

  lemma JoinThree(parts: seq<string>)
    requires |parts| == 3
    ensures Join(parts) == parts[0] + ":" + parts[1] + ":" + parts[2]
  {
    assert parts == [parts[0], parts[1]] + [parts[2]];
    JoinAppend([parts[0], parts[1]], [parts[2]]);
    JoinAppend([parts[0]], [parts[1]]);
    assert [parts[0], parts[1]] == [parts[0]] + [parts[1]];
  }

  lemma {:induction false} SegmentsHaveNoColon(s: string)
    ensures forall i :: 0 <= i < |Split(s)| ==> ':' !in Split(s)[i]
  {
    if s != "" { SegmentsHaveNoColon(s[1..]); }
  }

  lemma SameSuffix(a: string, x: string, y: string)
    requires a + ":" + x == a + ":" + y
    ensures x == y
  {
    assert x == (a + ":" + x)[|a| + 1..];
    assert y == (a + ":" + y)[|a| + 1..];
  }

  /** A text ending in a colon and a colon-free tail determines both parts. */
  lemma LastColon(a: string, x: string, b: string, y: string)
    requires a + ":" + x == b + ":" + y && ':' !in x && ':' !in y
    ensures a == b && x == y
  {
    var s, t := a + ":" + x, b + ":" + y;
    assert s[|a|] == ':' && t[|b|] == ':';
    assert a == s[..|a|] && b == t[..|b|];
    assert x == s[|a| + 1..] && y == t[|b| + 1..];
  }

  /** Valid keys with the same text are the same key, colons or not: the number
      ends at the last colon and the hash has a fixed length. */
  lemma ToStringInjective(k: CacheKey, l: CacheKey)
    requires |k.prefixHash| == 64 && |l.prefixHash| == 64 && k.sequenceLength >= 1 && l.sequenceLength >= 1
    requires k.ToString() == l.ToString()
    ensures k == l
  {
    ParseDecimal(k.sequenceLength);
    ParseDecimal(l.sequenceLength);
    var s, t := k.modelName + ":" + k.prefixHash, l.modelName + ":" + l.prefixHash;
    LastColon(s, Decimal(k.sequenceLength), t, Decimal(l.sequenceLength));
    assert k.prefixHash == s[|s| - HASH_LENGTH..] && l.prefixHash == t[|t| - HASH_LENGTH..];
    assert k.modelName == s[..|s| - HASH_LENGTH - 1] && l.modelName == t[..|t| - HASH_LENGTH - 1];
  }

  // -------------------------------------------------------------- Redis keys

  datatype Family = EntryKeys | NodeKeys | NodeIndexKeys

  function FamilyName(f: Family): string {
    match f
    case EntryKeys => "entry"
    case NodeKeys => "node"
    case NodeIndexKeys => "node_index"
  }

  function RedisKey(ns: string, f: Family, id: string): string {
    ns + ":" + FamilyName(f) + ":" + id
  }

  lemma FamilyNames(f: Family, g: Family)
    ensures ':' !in FamilyName(f)
    ensures FamilyName(f) == FamilyName(g) ==> f == g
  {
    assert |"entry"| == 5 && |"node"| == 4 && |"node_index"| == 10;
  }

  /** Keys of one namespace determine their family and identifier. */
  lemma FamiliesAreDisjoint(ns: string, f: Family, x: string, g: Family, y: string)
    requires RedisKey(ns, f, x) == RedisKey(ns, g, y)
    ensures f == g && x == y
    ensures RedisKey(ns, f, x) ==
              ns + (match f case EntryKeys => ":entry:" case NodeKeys => ":node:" case NodeIndexKeys => ":node_index:") + x
  {
    var p, q := FamilyName(f), FamilyName(g);
    FamilyNames(f, g);
    FamilyNames(g, f);
    AfterNamespace(ns, p, x);
    AfterNamespace(ns, q, y);
    FirstColon(p, x, q, y);
  }

  lemma AfterNamespace(ns: string, name: string, id: string)
    ensures var s := ns + ":" + name + ":" + id;
            |s| > |ns| && s[|ns| + 1..] == name + ":" + id
  {
  }

  function PrefixPattern(ns: string, hash: string): string {
    RedisKey(ns, EntryKeys, "*:" + hash + ":*")
  }

  /** A family pattern sees exactly the keys of its family whose identifier
      matches. */
  lemma FamilyGlob(ns: string, f: Family, pattern: string, g: Family, id: string)
    requires Plain(ns) && '[' !in pattern
    ensures '[' !in RedisKey(ns, f, pattern)
    ensures Match(RedisKey(ns, f, pattern), RedisKey(ns, g, id)) <==> f == g && Match(pattern, id)
  {
    var head := ns + ":" + FamilyName(f) + ":";
    assert Plain(FamilyName(f));
    assert Plain(head);
    assert RedisKey(ns, f, pattern) == head + pattern;
    var key := RedisKey(ns, g, id);
    MatchPlain(head, pattern, key);
    if head <= key {
      var rest := key[|head|..];
      assert RedisKey(ns, f, rest) == head + rest == key;
      FamiliesAreDisjoint(ns, f, rest, g, id);
    }
    assert f == g ==> key == head + id;
  }

  /** Looking entries up by hash through the pattern: a key is selected exactly
      if the hash is a colon-separated segment of the key's own hash, or a later
      one of its model name. */
  lemma PrefixPatternSelects(ns: string, hash: string, k: CacheKey)
    requires Plain(ns) && Plain(hash) && ':' !in hash && k.Valid()
    ensures '[' !in PrefixPattern(ns, hash)
    ensures Match(PrefixPattern(ns, hash), RedisKey(ns, EntryKeys, k.ToString()))
            <==> hash in Split(k.prefixHash) || hash in Split(k.modelName)[1..]
  {
    SegmentGlob(hash, k.ToString());
    FamilyGlob(ns, EntryKeys, "*:" + hash + ":*", EntryKeys, k.ToString());
    SplitKey(k);
    var m, h := Split(k.modelName), Split(k.prefixHash);
    var parts := Split(k.ToString());
    assert parts[1..|parts| - 1] == m[1..] + h;
  }

  /** For colon-free model names the pattern is the plain filter on the hash,
      whenever the stored hash has no colon or the one looked up is full length. */
  lemma PrefixPatternIsFilter(ns: string, hash: string, k: CacheKey)
    requires Plain(ns) && Plain(hash) && ':' !in hash && k.Valid() && ':' !in k.modelName
    requires ':' !in k.prefixHash || |hash| == HASH_LENGTH
    ensures '[' !in PrefixPattern(ns, hash)
    ensures Match(PrefixPattern(ns, hash), RedisKey(ns, EntryKeys, k.ToString())) <==> k.prefixHash == hash
  {
    PrefixPatternSelects(ns, hash, k);
    SplitWhole(k.modelName);
    SplitWhole(k.prefixHash);
    SegmentLength(k.prefixHash);
  }
}
