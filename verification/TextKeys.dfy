/** The string handling that storage keys rest on: splitting at colons, decimal
    numbers, and Redis glob patterns. */
module TextKeys {

  import opened Common

  // ------------------------------------------------------------ splitting

  /** `s.split(':')`. */
  function Split(s: string): (parts: seq<string>)
    ensures parts != []
  {
    if s == "" then [""]
    else
      var rest := Split(s[1..]);
      if s[0] == ':' then [""] + rest else [[s[0]] + rest[0]] + rest[1..]
  }

  function Join(parts: seq<string>): string
    requires parts != []
  {
    if |parts| == 1 then parts[0] else parts[0] + ":" + Join(parts[1..])
  }

  lemma {:induction false} JoinSplit(s: string)
    ensures Join(Split(s)) == s
  {
    if s != "" {
      JoinSplit(s[1..]);
      var rest := Split(s[1..]);
      if s[0] == ':' {
        assert Split(s)[1..] == rest;
      } else {
        assert Split(s)[1..] == rest[1..];
      }
    }
  }

  lemma {:induction false} JoinAppend(a: seq<string>, b: seq<string>)
    requires a != [] && b != []
    ensures Join(a + b) == Join(a) + ":" + Join(b)
  {
    if |a| == 1 {
      assert (a + b)[1..] == b;
    } else {
      JoinAppend(a[1..], b);
      assert (a + b)[1..] == a[1..] + b;
    }
  }

  lemma AppendTail(a: string, b: string)
    requires a != ""
    ensures var s := a + ":" + b; s[0] == a[0] && s[1..] == a[1..] + ":" + b
  {
  }

  lemma AttachToFirst(c: char, rest: seq<string>, tail: seq<string>)
    requires rest != []
    ensures [[c] + (rest + tail)[0]] + (rest + tail)[1..] == ([[c] + rest[0]] + rest[1..]) + tail
  {
    assert (rest + tail)[0] == rest[0] && (rest + tail)[1..] == rest[1..] + tail;
  }

  lemma {:induction false} SplitAppend(a: string, b: string)
    ensures Split(a + ":" + b) == Split(a) + Split(b)
  {
    if a == "" {
      assert (a + ":" + b)[1..] == b;
    } else {
      AppendTail(a, b);
      SplitAppend(a[1..], b);
      AttachToFirst(a[0], Split(a[1..]), Split(b));
      if a[0] == ':' {
        assert [""] + (Split(a[1..]) + Split(b)) == ([""] + Split(a[1..])) + Split(b);
      }
    }
  }

  lemma {:induction false} SplitWhole(s: string)
    ensures |Split(s)| == 1 <==> ':' !in s
    ensures ':' !in s ==> Split(s) == [s]
  {
    if s != "" {
      SplitWhole(s[1..]);
      assert s == [s[0]] + s[1..];
    }
  }

  /** A segment is no longer than the text, and as long only if it is the text. */
  lemma {:induction false} SegmentLength(s: string)
    ensures forall i :: 0 <= i < |Split(s)| ==> |Split(s)[i]| <= |s| && (|Split(s)[i]| == |s| ==> s == "" || ':' !in s)
  {
    if s != "" {
      SegmentLength(s[1..]);
      SplitWhole(s[1..]);
      assert s == [s[0]] + s[1..];
    }
  }

  /** A colon-free head ends at the first colon. */
  lemma FirstColon(a: string, x: string, b: string, y: string)
    requires a + ":" + x == b + ":" + y && ':' !in a && ':' !in b
    ensures a == b && x == y
  {
    var s, t := a + ":" + x, b + ":" + y;
    assert s[|a|] == ':' && t[|b|] == ':';
    assert forall i :: 0 <= i < |a| ==> s[i] == a[i];
    assert forall i :: 0 <= i < |b| ==> t[i] == b[i];
    assert a == s[..|a|] && b == t[..|b|];
    assert x == s[|a| + 1..] && y == t[|b| + 1..];
  }

  // ------------------------------------------------------- decimal numbers

  predicate IsDigit(c: char) { '0' <= c <= '9' }

  function DigitChar(d: nat): char
    requires d < 10
  {
    '0' + d as char
  }

  function DigitValue(c: char): (d: nat)
    requires IsDigit(c)
    ensures d < 10 && DigitChar(d) == c
  {
    c as int - '0' as int
  }

  function Decimal(n: nat): (s: string)
    ensures s != "" && forall i :: 0 <= i < |s| ==> IsDigit(s[i])
    decreases n
  {
    if n < 10 then [DigitChar(n)] else Decimal(n / 10) + [DigitChar(n % 10)]
  }

  /** What counts as white space in ASCII. */
  predicate IsSpace(c: char) {
    c == ' ' || 9 <= c as int <= 13 || 28 <= c as int <= 31
  }

  /** Digits, with single underscores allowed between them. */
  function ParseDigits(s: string): Option<nat> {
    if s == "" || !IsDigit(s[|s| - 1]) then None
    else
      var d := DigitValue(s[|s| - 1]);
      if |s| == 1 then Some(d)
      else
        var higher := if s[|s| - 2] == '_' then ParseDigits(s[..|s| - 2]) else ParseDigits(s[..|s| - 1]);
        if higher.None? then None else Some(10 * higher.value + d)
  }

  function Strip(s: string): string {
    if s != "" && IsSpace(s[0]) then Strip(s[1..])
    else if s != "" && IsSpace(s[|s| - 1]) then Strip(s[..|s| - 1])
    else s
  }

  /** `int(text)` on ASCII text. */
  function ParseInt(text: string): Option<int> {
    var s := Strip(text);
    if s != "" && (s[0] == '+' || s[0] == '-') then
      var v := ParseDigits(s[1..]);
      if v.None? then None else if s[0] == '-' then Some(-(v.value as int)) else Some(v.value as int)
    else
      var v := ParseDigits(s);
      if v.None? then None else Some(v.value as int)
  }

  lemma {:induction false} ParseDigitsDecimal(n: nat)
    ensures ParseDigits(Decimal(n)) == Some(n)
  {
    if n >= 10 {
      ParseDigitsDecimal(n / 10);
      var s := Decimal(n);
      assert s[..|s| - 1] == Decimal(n / 10);
    }
  }

  lemma DigitsArePlain(s: string)
    requires s != "" && forall i :: 0 <= i < |s| ==> IsDigit(s[i])
    ensures Strip(s) == s && ':' !in s
  {
    assert IsDigit(s[0]) && IsDigit(s[|s| - 1]);
  }

  lemma ParseDecimal(n: nat)
    ensures ParseInt(Decimal(n)) == Some(n as int)
    ensures ':' !in Decimal(n)
  {
    var s := Decimal(n);
    DigitsArePlain(s);
    ParseDigitsDecimal(n);
  }

  predicate Blank(s: string) {
    forall i :: 0 <= i < |s| ==> s[i] == ' ' || s[i] == '\t' || s[i] == '\n' || s[i] == '\r'
  }

  lemma {:induction false} StripBlank(a: string, s: string, b: string)
    requires Blank(a) && Blank(b) && s != "" && !IsSpace(s[0]) && !IsSpace(s[|s| - 1])
    ensures Strip(a + s + b) == s
    decreases |a| + |b|
  {
    var t := a + s + b;
    if a != "" {
      assert t[0] == a[0] && t[1..] == a[1..] + s + b;
      StripBlank(a[1..], s, b);
    } else if b != "" {
      assert t[0] == s[0] && t[|t| - 1] == b[|b| - 1] && t[..|t| - 1] == a + s + b[..|b| - 1];
      StripBlank(a, s, b[..|b| - 1]);
    } else {
      assert t == s;
    }
  }

  /** A number is read with a sign or without, and with blanks around it. */
  lemma ParseSpellings(n: nat, a: string, b: string)
    requires Blank(a) && Blank(b)
    ensures ParseInt(a + Decimal(n) + b) == Some(n as int)
    ensures ParseInt(a + ("+" + Decimal(n)) + b) == Some(n as int)
    ensures ParseInt(a + ("-" + Decimal(n)) + b) == Some(-(n as int))
  {
    var s := Decimal(n);
    ParseDigitsDecimal(n);
    assert IsDigit(s[0]) && IsDigit(s[|s| - 1]);
    StripBlank(a, s, b);
    StripBlank(a, "+" + s, b);
    StripBlank(a, "-" + s, b);
    assert ("+" + s)[1..] == s && ("-" + s)[1..] == s;
  }

  /** Nothing but digits is read as a number, blanks, a sign and underscores
      aside. */
  lemma {:induction false} DigitsOnly(s: string)
    requires ParseDigits(s).Some?
    ensures s != "" && IsDigit(s[0]) && forall i :: 0 <= i < |s| ==> IsDigit(s[i]) || s[i] == '_'
  {
    if |s| > 1 {
      if s[|s| - 2] == '_' { DigitsOnly(s[..|s| - 2]); } else { DigitsOnly(s[..|s| - 1]); }
    }
  }

  // ------------------------------------------------------------ glob match

  /** Redis glob matching without bracketed classes: `*` any run, `?` any one
      character, a backslash takes the next character literally. */
  predicate Match(p: string, s: string)
    requires '[' !in p
    decreases |p| + |s|
  {
    if p == "" then s == ""
    else if p[0] == '*' then Match(p[1..], s) || (s != "" && Match(p, s[1..]))
    else if s == "" then false
    else if p[0] == '?' then Match(p[1..], s[1..])
    else if p[0] == '\\' && |p| > 1 then s[0] == p[1] && Match(p[2..], s[1..])
    else s[0] == p[0] && Match(p[1..], s[1..])
  }

  /** A backslash makes the character after it stand for itself. */
  lemma EscapeIsLiteral(c: char, p: string, s: string)
    requires c != '[' && '[' !in p
    ensures '[' !in "\\" + [c] + p
    ensures Match("\\" + [c] + p, s) <==> s != "" && s[0] == c && Match(p, s[1..])
    ensures Match("\\", s) <==> s == "\\"
  {
    var q := "\\" + [c] + p;
    assert q[0] == '\\' && q[1] == c && q[2..] == p;
    assert "\\"[1..] == "";
    if s != "" && s[0] == '\\' && Match("", s[1..]) { assert s == [s[0]] + s[1..]; }
  }

  predicate Plain(s: string) {
    forall i :: 0 <= i < |s| ==> s[i] != '*' && s[i] != '?' && s[i] != '[' && s[i] != '\\'
  }

  lemma {:induction false} MatchPlain(lit: string, p: string, s: string)
    requires Plain(lit) && '[' !in p
    ensures '[' !in lit + p
    ensures Match(lit + p, s) <==> lit <= s && Match(p, s[|lit|..])
  {
    if lit == "" {
      assert lit + p == p && s[0..] == s;
    } else {
      assert (lit + p)[0] == lit[0] && (lit + p)[1..] == lit[1..] + p;
      if s != "" {
        MatchPlain(lit[1..], p, s[1..]);
        assert lit == [lit[0]] + lit[1..] && s == [s[0]] + s[1..];
        if lit <= s { assert s[|lit|..] == s[1..][|lit[1..]|..]; }
      }
    }
  }

  lemma {:induction false} MatchStar(p: string, s: string)
    requires '[' !in p
    ensures '[' !in "*" + p
    ensures Match("*" + p, s) <==> exists i :: 0 <= i <= |s| && Match(p, s[i..])
    decreases |s|
  {
    var q := "*" + p;
    assert q[1..] == p;
    assert s[0..] == s;
    if s != "" {
      MatchStar(p, s[1..]);
      assert forall i :: 0 <= i <= |s[1..]| ==> s[1..][i..] == s[i + 1..];
      if Match(q, s[1..]) {
        var i :| 0 <= i <= |s[1..]| && Match(p, s[1..][i..]);
        assert Match(p, s[i + 1..]);
      }
      if i :| 0 < i <= |s| && Match(p, s[i..]) {
        assert s[1..][i - 1..] == s[i..];
      }
    }
  }

  lemma {:induction false} MatchAny(s: string)
    ensures Match("*", s)
    decreases |s|
  {
    if s != "" { MatchAny(s[1..]); }
  }

  /** `word` is a segment of `s` that is neither the first nor the last. */
  predicate InnerSegment(word: string, s: string) {
    var parts := Split(s);
    |parts| > 2 && word in parts[1..|parts| - 1]
  }

  lemma InnerSegmentAt(word: string, s: string, i: nat)
    requires ':' !in word && i <= |s| && ":" + word + ":" <= s[i..]
    ensures InnerSegment(word, s)
  {
    var mark := ":" + word + ":";
    var a, b := s[..i], s[i + |mark|..];
    assert s[i..][|mark|..] == b;
    assert s == a + ":" + (word + ":" + b);
    SplitAround(a, word, b);
    assert Split(s)[|Split(a)|] == word;
  }

  lemma SplitAround(a: string, word: string, b: string)
    requires ':' !in word
    ensures Split(a + ":" + (word + ":" + b)) == Split(a) + ([word] + Split(b))
  {
    SplitAppend(a, word + ":" + b);
    SplitAppend(word, b);
    SplitWhole(word);
  }

  lemma InnerSegmentFound(word: string, s: string) returns (i: nat)
    requires InnerSegment(word, s)
    ensures i <= |s| && ":" + word + ":" <= s[i..]
  {
    var parts := Split(s);
    var k :| 1 <= k < |parts| - 1 && parts[k] == word;
    JoinSplit(s);
    var front, back := parts[..k], parts[k + 1..];
    CutOut(parts, k);
    JoinAround(front, word, back);
    i := |Join(front)|;
    Suffix(Join(front), ":" + word + ":" + Join(back));
    MarkLeads(word, Join(back));
  }

  lemma Suffix(a: string, b: string)
    ensures (a + b)[|a|..] == b
  {
  }

  lemma CutOut(parts: seq<string>, k: nat)
    requires k < |parts|
    ensures parts == parts[..k] + ([parts[k]] + parts[k + 1..])
  {
  }

  lemma MarkLeads(word: string, rest: string)
    ensures ":" + word + ":" <= ":" + word + ":" + rest
  {
  }

  lemma JoinAround(front: seq<string>, word: string, back: seq<string>)
    requires front != [] && back != []
    ensures Join(front + ([word] + back)) == Join(front) + (":" + word + ":" + Join(back))
  {
    JoinAppend(front, [word] + back);
    JoinAppend([word], back);
  }

  /** The pattern `*:word:*` finds exactly the texts with `word` as an inner
      colon-separated segment. */
  lemma SegmentGlob(word: string, s: string)
    requires Plain(word) && ':' !in word
    ensures '[' !in "*:" + word + ":*"
    ensures Match("*:" + word + ":*", s) <==> InnerSegment(word, s)
  {
    var mark := ":" + word + ":";
    assert "*:" + word + ":*" == "*" + (mark + "*");
    forall i | 0 <= i <= |s| ensures Match(mark + "*", s[i..]) <==> mark <= s[i..] {
      MatchPlain(mark, "*", s[i..]);
      if mark <= s[i..] { MatchAny(s[i..][|mark|..]); }
    }
    MatchPlain(mark, "*", "");
    MatchStar(mark + "*", s);
    if Match("*" + (mark + "*"), s) {
      var i :| 0 <= i <= |s| && Match(mark + "*", s[i..]);
      InnerSegmentAt(word, s, i);
    }
    if InnerSegment(word, s) {
      var i := InnerSegmentFound(word, s);
      assert Match(mark + "*", s[i..]);
    }
  }
}
