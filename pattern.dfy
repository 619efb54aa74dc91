/**
 * The Glob+ pattern language of `src/features/pattern.py`: the meta-character test, the
 * tokenizer (`_parse_charclass`, `_parse_pattern`) and the meaning of a token list as a set
 * of words. The search of a trie for the words a pattern matches is in module `Globs`.
 */
module Patterns {
  import opened Wrappers

  /**
   * One compiled pattern element: `('LIT', c)`, `('ANY', None)`, `('STAR', None)` and
   * `('SET', chars)` of the source.
   */
  datatype Token = Lit(c: char) | Any | Star | Set(members: set<char>)

  /** The three `ValueError`s the tokenizer raises, one per message. */
  datatype PatternError = ClassAtEnd | DanglingEscape | UnclosedClass

  /** The characters that make a word a pattern. */
  predicate IsMeta(c: char)
  {
    c == '?' || c == '*' || c == '[' || c == '\\'
  }

  /** `is_glob_pattern(s)`: does `s` contain one of the meta characters? */
  function IsGlobPattern(s: string): (r: bool)
    ensures r <==> exists i :: 0 <= i < |s| && IsMeta(s[i])
  {
    '?' in s || '*' in s || '[' in s || '\\' in s
  }

  // ---------------------------------------------------------------- character classes

  /**
   * A code `chr` can turn into a Dafny `char`. Python's `chr` also yields the surrogate
   * codes 0xD800 to 0xDFFF, which no Dafny string holds.
   */
  predicate IsScalar(code: int)
  {
    0 <= code < 0xD800 || 0xE000 <= code < 0x11_0000
  }

  /** `chr(code)`. */
  function Chr(code: int): char
    requires IsScalar(code)
  {
    code as char
  }

  /** The characters with codes `lo` up to but excluding `hi`. */
  function Codes(lo: int, hi: int): set<char>
  {
    set code: int | lo <= code < hi && IsScalar(code) :: Chr(code)
  }

  /** The range `a-b` of a class: every character from the smaller code to the larger. */
  function Span(a: char, b: char): set<char>
  {
    if a <= b then Codes(a as int, b as int + 1) else Codes(b as int, a as int + 1)
  }

  /** A range holds exactly the characters between its ends, whichever end is typed first. */
  lemma SpanMembers(a: char, b: char)
    ensures forall c: char :: c in Span(a, b) <==> (a <= c <= b || b <= c <= a)
    ensures Span(a, b) == Span(b, a)
  {
    forall c: char | a <= c <= b || b <= c <= a ensures c in Span(a, b) {
      assert IsScalar(c as int) && Chr(c as int) == c;
    }
  }

  /** One more code read by the range loop of `_parse_charclass`. */
  lemma CodesStep(lo: int, hi: int)
    requires lo <= hi
    ensures Codes(lo, hi + 1) == Codes(lo, hi) + (if IsScalar(hi) then {Chr(hi)} else {})
  {
    if IsScalar(hi) {
      assert Chr(hi) in Codes(lo, hi + 1);
    }
    forall c | c in Codes(lo, hi + 1) ensures c in Codes(lo, hi) || (IsScalar(hi) && c == Chr(hi)) {
      var code: int :| lo <= code < hi + 1 && IsScalar(code) && c == Chr(code);
      if code < hi {
        assert c in Codes(lo, hi);
      }
    }
  }

  /**
   * The rest of `_parse_charclass` from index `j` of `pat`, with the members `acc` read so
   * far; `first` holds until the first item of the class is read. The result is the set of
   * members and the index after the closing `]`.
   */
  function ClassFrom(pat: string, j: nat, first: bool, acc: set<char>): (r: Result<(set<char>, nat), PatternError>)
    decreases |pat| - j
    ensures r.Ok? ==> j < r.value.1 <= |pat| && pat[r.value.1 - 1] == ']' && acc <= r.value.0
  {
    if j >= |pat| then Err(UnclosedClass)
    else if pat[j] == ']' && !first then Ok((acc, j + 1))
    else if pat[j] == '\\' then
      if j + 1 >= |pat| then Err(DanglingEscape)
      else ClassFrom(pat, j + 2, false, acc + {pat[j + 1]})
    else if j + 2 < |pat| && pat[j + 1] == '-' && pat[j + 2] != ']' then
      ClassFrom(pat, j + 3, false, acc + Span(pat[j], pat[j + 2]))
    else ClassFrom(pat, j + 1, false, acc + {pat[j]})
  }

  /** What `_parse_charclass(pat, i)` returns or raises for a class whose `[` is at `i - 1`. */
  function CharClass(pat: string, i: nat): Result<(set<char>, nat), PatternError>
  {
    if i >= |pat| then Err(ClassAtEnd) else ClassFrom(pat, i, true, {})
  }

  /** `_parse_charclass(pat, i)`: the loop reading a class up to its closing `]`. */
  method ParseCharClass(pat: string, i: nat) returns (r: Result<(set<char>, nat), PatternError>)
    ensures r == CharClass(pat, i)
  {
    if i >= |pat| {
      return Err(ClassAtEnd);
    }
    var chars: set<char> := {};
    var j := i;
    var first := true;
    while j < |pat|
      invariant i <= j
      invariant ClassFrom(pat, j, first, chars) == CharClass(pat, i)
      decreases |pat| - j
    {
      var c := pat[j];
      if c == ']' && !first {
        return Ok((chars, j + 1));
      }
      if c == '\\' {
        if j + 1 >= |pat| {
          return Err(DanglingEscape);
        }
        chars := chars + {pat[j + 1]};
        j := j + 2;
        first := false;
        continue;
      }
      if j + 2 < |pat| && pat[j + 1] == '-' && pat[j + 2] != ']' {
        var start, end := pat[j], pat[j + 2];
        var lo, hi := start as int, end as int;
        if hi < lo {
          lo, hi := hi, lo;
        }
        ghost var before := chars;
        var code := lo;
        while code <= hi
          invariant lo <= code <= hi + 1
          invariant chars == before + Codes(lo, code)
        {
          CodesStep(lo, code);
          if IsScalar(code) {
            chars := chars + {Chr(code)};
          }
          code := code + 1;
        }
        assert Codes(lo, code) == Span(start, end);
        j := j + 3;
        first := false;
        continue;
      }
      chars := chars + {c};
      j := j + 1;
      first := false;
    }
    return Err(UnclosedClass);
  }

  // ---------------------------------------------------------------- the tokenizer

  /** `t` in front of the tokens `r`, or the error `r` unchanged. */
  function Prepend(ts: seq<Token>, r: Result<seq<Token>, PatternError>): Result<seq<Token>, PatternError>
  {
    if r.Ok? then Ok(ts + r.value) else r
  }

  /** Prepending in two steps is prepending the joined tokens. */
  lemma PrependTwice(ts: seq<Token>, us: seq<Token>, r: Result<seq<Token>, PatternError>)
    ensures Prepend(ts, Prepend(us, r)) == Prepend(ts + us, r)
  {
    if r.Ok? {
      assert ts + (us + r.value) == (ts + us) + r.value;
    }
  }

  /** The tokens of `pat` from index `i` on, as `_parse_pattern` reads them. */
  function TokensFrom(pat: string, i: nat): Result<seq<Token>, PatternError>
    decreases |pat| - i
  {
    if i >= |pat| then Ok([])
    else if pat[i] == '\\' then
      if i + 1 < |pat| then Prepend([Lit(pat[i + 1])], TokensFrom(pat, i + 2))
      else Prepend([Lit('\\')], TokensFrom(pat, i + 1))
    else if pat[i] == '?' then Prepend([Any], TokensFrom(pat, i + 1))
    else if pat[i] == '*' then Prepend([Star], TokensFrom(pat, i + 1))
    else if pat[i] == '[' then
      match CharClass(pat, i + 1)
      case Err(e) => Err(e)
      case Ok(cls) => Prepend([Set(cls.0)], TokensFrom(pat, cls.1))
    else Prepend([Lit(pat[i])], TokensFrom(pat, i + 1))
  }

  /** What `_parse_pattern(pat)` returns or raises. */
  function Tokens(pat: string): Result<seq<Token>, PatternError>
  {
    TokensFrom(pat, 0)
  }

  /** `_parse_pattern(pat)`: the loop turning a pattern into tokens. */
  method ParsePattern(pat: string) returns (r: Result<seq<Token>, PatternError>)
    ensures r == Tokens(pat)
  {
    var tokens: seq<Token> := [];
    var i: nat := 0;
    assert Prepend(tokens, TokensFrom(pat, i)) == Tokens(pat) by {
      if TokensFrom(pat, 0).Ok? {
        assert [] + TokensFrom(pat, 0).value == TokensFrom(pat, 0).value;
      }
    }
    while i < |pat|
      invariant Prepend(tokens, TokensFrom(pat, i)) == Tokens(pat)
      decreases |pat| - i
    {
      ghost var before := tokens;
      ghost var rest := TokensFrom(pat, i);
      var c := pat[i];
      if c == '\\' {
        if i + 1 < |pat| {
          tokens := tokens + [Lit(pat[i + 1])];
          i := i + 2;
        } else {
          tokens := tokens + [Lit('\\')];
          i := i + 1;
        }
      } else if c == '?' {
        tokens := tokens + [Any];
        i := i + 1;
      } else if c == '*' {
        tokens := tokens + [Star];
        i := i + 1;
      } else if c == '[' {
        var cls := ParseCharClass(pat, i + 1);
        if cls.Err? {
          return Err(cls.error);
        }
        tokens := tokens + [Set(cls.value.0)];
        i := cls.value.1;
      } else {
        tokens := tokens + [Lit(c)];
        i := i + 1;
      }
      PrependTwice(before, tokens[|before|..], TokensFrom(pat, i));
      assert before + tokens[|before|..] == tokens;
    }
    assert tokens + [] == tokens;
    return Ok(tokens);
  }

  // ---------------------------------------------------------------- what a token list means

  /**
   * Word `w` matches the tokens `ts`: `Lit(c)` is the character `c`, `Any` one character,
   * `Set(cs)` one character of `cs`, and `Star` any run of characters, the empty one too.
   */
  predicate Matches(w: string, ts: seq<Token>)
    decreases |w|, |ts|
  {
    if ts == [] then w == []
    else match ts[0]
      case Star => Matches(w, ts[1..]) || (w != [] && Matches(w[1..], ts))
      case Lit(c) => w != [] && w[0] == c && Matches(w[1..], ts[1..])
      case Any => w != [] && Matches(w[1..], ts[1..])
      case Set(cs) => w != [] && w[0] in cs && Matches(w[1..], ts[1..])
  }

  /** One literal token per character of `s`. */
  function Literal(s: string): (ts: seq<Token>)
    ensures |ts| == |s| && forall k :: 0 <= k < |s| ==> ts[k] == Lit(s[k])
  {
    if s == [] then [] else [Lit(s[0])] + Literal(s[1..])
  }

  /** A literal pattern matches exactly the word it spells. */
  lemma {:induction false} LiteralMatches(w: string, s: string)
    ensures Matches(w, Literal(s)) <==> w == s
    decreases |s|
  {
    if s != [] {
      assert Literal(s)[1..] == Literal(s[1..]);
      if w != [] {
        LiteralMatches(w[1..], s[1..]);
        assert w == [w[0]] + w[1..] && s == [s[0]] + s[1..];
      }
    }
  }

  /** A lone `*` matches every word. */
  lemma {:induction false} StarMatchesAll(w: string)
    ensures Matches(w, [Star])
    decreases |w|
  {
    assert [Star][1..] == [];
    if w != [] {
      StarMatchesAll(w[1..]);
    }
  }

  /** Without meta characters the tokenizer reads every character as itself. */
  lemma {:induction false} PlainTokensFrom(pat: string, i: nat)
    requires i <= |pat| && !IsGlobPattern(pat)
    ensures TokensFrom(pat, i) == Ok(Literal(pat[i..]))
    decreases |pat| - i
  {
    if i < |pat| {
      assert !IsMeta(pat[i]);
      PlainTokensFrom(pat, i + 1);
      assert pat[i..][1..] == pat[i + 1..];
    }
  }

  /**
   * A word that `is_glob_pattern` rejects compiles to one literal per character, so as a
   * pattern it matches only itself.
   */
  lemma PlainTokens(pat: string)
    requires !IsGlobPattern(pat)
    ensures Tokens(pat) == Ok(Literal(pat))
    ensures forall w :: Matches(w, Literal(pat)) <==> w == pat
  {
    PlainTokensFrom(pat, 0);
    assert pat[0..] == pat;
    forall w ensures Matches(w, Literal(pat)) <==> w == pat {
      LiteralMatches(w, pat);
    }
  }

  /** A class is read only up to a closing `]`: with none after its `[`, parsing fails. */
  lemma NoCloseNoClass(pat: string, i: nat)
    requires forall j :: i <= j < |pat| ==> pat[j] != ']'
    ensures CharClass(pat, i).Err?
  {
  }

  /** A `]` right after `[` is a member, not the end of the class. */
  lemma LeadingBracket(pat: string, i: nat)
    requires i < |pat| && pat[i] == ']' && !(i + 2 < |pat| && pat[i + 1] == '-' && pat[i + 2] != ']')
    ensures CharClass(pat, i).Ok? ==> ']' in CharClass(pat, i).value.0 && CharClass(pat, i).value.1 > i + 1
  {
  }

  /**
   * A range `a-b` read anywhere in a class (first or after other members) puts every
   * character between its ends, in either order of the ends, into the class.
   */
  lemma RangeMembers(pat: string, j: nat, first: bool, acc: set<char>)
    requires j + 2 < |pat| && pat[j] != '\\' && !(pat[j] == ']' && !first)
    requires pat[j + 1] == '-' && pat[j + 2] != ']'
    ensures ClassFrom(pat, j, first, acc).Ok? ==>
              forall c: char :: (pat[j] <= c <= pat[j + 2] || pat[j + 2] <= c <= pat[j]) ==>
                c in ClassFrom(pat, j, first, acc).value.0
  {
    SpanMembers(pat[j], pat[j + 2]);
  }

  // ---------------------------------------------------------------- rendering tokens back

  /** The members of `cs` in some order. */
  ghost function Enum(cs: set<char>): (r: seq<char>)
    ensures forall c :: c in r <==> c in cs
    decreases cs
  {
    if cs == {} then []
    else
      var c :| c in cs;
      [c] + Enum(cs - {c})
  }

  /** Each character of `cs` behind a backslash. */
  function Escaped(cs: seq<char>): (r: string)
    ensures |r| == 2 * |cs|
  {
    if cs == [] then [] else ['\\', cs[0]] + Escaped(cs[1..])
  }

  /** Pattern text that compiles to the single token `t`. */
  ghost function RenderToken(t: Token): string
  {
    match t
    case Lit(c) => ['\\', c]
    case Any => ['?']
    case Star => ['*']
    case Set(cs) => ['['] + Escaped(Enum(cs)) + [']']
  }

  /** Pattern text for a token list: the tokens' texts one after another. */
  ghost function Render(ts: seq<Token>): string
  {
    if ts == [] then [] else RenderToken(ts[0]) + Render(ts[1..])
  }

  /** No class token is empty: `_parse_charclass` never yields an empty set. */
  predicate NoEmptyClass(ts: seq<Token>)
  {
    forall k :: 0 <= k < |ts| ==> ts[k] != Set({})
  }

  /** From index `i`, `pat` holds the characters `es`, each behind a backslash, then `]`. */
  predicate EscapedAt(pat: string, i: nat, es: seq<char>)
  {
    && i + 2 * |es| < |pat| && pat[i + 2 * |es|] == ']'
    && forall k :: 0 <= k < |es| ==> pat[i + 2 * k] == '\\' && pat[i + 2 * k + 1] == es[k]
  }

  /** The first escaped character of a class text, and the rest after it. */
  lemma EscapedTail(pat: string, i: nat, es: seq<char>)
    requires EscapedAt(pat, i, es) && es != []
    ensures i + 1 < |pat| && pat[i] == '\\' && pat[i + 1] == es[0] && EscapedAt(pat, i + 2, es[1..])
  {
    assert pat[i + 2 * 0] == '\\' && pat[i + 2 * 0 + 1] == es[0];
    forall k | 0 <= k < |es[1..]|
      ensures pat[i + 2 + 2 * k] == '\\' && pat[i + 2 + 2 * k + 1] == es[1..][k]
    {
      assert pat[i + 2 * (k + 1)] == '\\' && pat[i + 2 * (k + 1) + 1] == es[k + 1];
    }
  }

  /** An escaped list of characters followed by `]` is read as a class holding exactly them. */
  lemma {:induction false} EscapedClass(pat: string, i: nat, es: seq<char>, first: bool, acc: set<char>)
    requires EscapedAt(pat, i, es) && (es != [] || !first)
    ensures ClassFrom(pat, i, first, acc) == Ok((acc + Elems(es), i + 2 * |es| + 1))
    decreases |es|
  {
    if es == [] {
      assert pat[i] == ']';
      assert ClassFrom(pat, i, first, acc) == Ok((acc, i + 1));
      assert acc + Elems(es) == acc;
    } else {
      EscapedTail(pat, i, es);
      var more := acc + {es[0]};
      assert ClassFrom(pat, i, first, acc) == ClassFrom(pat, i + 2, false, more);
      EscapedClass(pat, i + 2, es[1..], false, more);
      assert (i + 2) + 2 * |es[1..]| + 1 == i + 2 * |es| + 1;
      ElemsCons(es);
      assert more + Elems(es[1..]) == acc + Elems(es);
    }
  }

  /** The elements of a non-empty sequence are its head and those of its tail. */
  lemma ElemsCons<T>(s: seq<T>)
    requires s != []
    ensures Elems(s) == {s[0]} + Elems(s[1..])
  {
    assert s == [s[0]] + s[1..];
  }

  /** The text of a token list lies in `pat` from index `i` up to its end. */
  ghost predicate RenderedAt(pat: string, i: nat, ts: seq<Token>)
    decreases |ts|
  {
    if ts == [] then i == |pat|
    else
      var w := |RenderToken(ts[0])|;
      && i + w <= |pat| && pat[i..i + w] == RenderToken(ts[0])
      && RenderedAt(pat, i + w, ts[1..])
  }

  /** `Render(ts)` behind any prefix `x` is laid out token by token. */
  lemma {:induction false} RenderLaidOut(x: string, ts: seq<Token>)
    ensures RenderedAt(x + Render(ts), |x|, ts)
    decreases |ts|
  {
    if ts != [] {
      var r := RenderToken(ts[0]);
      RenderHead(x, ts);
      RenderLaidOut(x + r, ts[1..]);
    }
  }

  /** The first token's text starts right after `x`, and the rest follows it. */
  lemma RenderHead(x: string, ts: seq<Token>)
    requires ts != []
    ensures var r := RenderToken(ts[0]);
      && x + Render(ts) == (x + r) + Render(ts[1..])
      && |x| + |r| <= |x + Render(ts)| && (x + Render(ts))[|x|..|x| + |r|] == r
  {
    var r := RenderToken(ts[0]);
    assert x + Render(ts) == (x + r) + Render(ts[1..]);
    assert ((x + r) + Render(ts[1..]))[|x|..|x| + |r|] == r;
  }

  /** The text of one token is read back as that token, and reading goes on after it. */
  lemma TokenRoundTrip(pat: string, i: nat, t: Token)
    requires t != Set({}) && i + |RenderToken(t)| <= |pat| && pat[i..i + |RenderToken(t)|] == RenderToken(t)
    ensures TokensFrom(pat, i) == Prepend([t], TokensFrom(pat, i + |RenderToken(t)|))
  {
    var r := RenderToken(t);
    assert pat[i] == r[0] by {
      assert pat[i..i + |r|][0] == pat[i];
    }
    match t
    case Lit(c) =>
      assert pat[i + 1] == r[1] by {
        assert pat[i..i + |r|][1] == pat[i + 1];
      }
    case Any =>
    case Star =>
    case Set(cs) =>
      ClassRoundTrip(pat, i, cs);
  }

  /** The text of a class token is read back as a class with the same members. */
  lemma ClassRoundTrip(pat: string, i: nat, cs: set<char>)
    requires cs != {} && i + |RenderToken(Set(cs))| <= |pat| && pat[i..i + |RenderToken(Set(cs))|] == RenderToken(Set(cs))
    ensures pat[i] == '[' && CharClass(pat, i + 1) == Ok((cs, i + |RenderToken(Set(cs))|))
  {
    var es := Enum(cs);
    ClassLaidOut(pat, i, cs);
    assert es != [] by {
      var c :| c in cs;
    }
    EscapedClass(pat, i + 1, es, true, {});
    assert {} + Elems(es) == cs;
  }

  /** Where the text of a class token lies in `pat`, its members lie escaped before a `]`. */
  lemma ClassLaidOut(pat: string, i: nat, cs: set<char>)
    requires i + |RenderToken(Set(cs))| <= |pat| && pat[i..i + |RenderToken(Set(cs))|] == RenderToken(Set(cs))
    ensures pat[i] == '[' && EscapedAt(pat, i + 1, Enum(cs))
  {
    var r := RenderToken(Set(cs));
    var es := Enum(cs);
    SliceAt(pat, i, r);
    assert r[1 + 2 * |es|] == ']';
    forall k | 0 <= k < |es| ensures pat[i + 1 + 2 * k] == '\\' && pat[i + 1 + 2 * k + 1] == es[k] {
      EscapedIndex(es, k);
      assert r[1 + 2 * k] == Escaped(es)[2 * k] && r[1 + 2 * k + 1] == Escaped(es)[2 * k + 1];
    }
  }

  /** A slice of `pat` equal to `r`, character by character. */
  lemma SliceAt(pat: string, i: nat, r: string)
    requires i + |r| <= |pat| && pat[i..i + |r|] == r
    ensures forall k :: 0 <= k < |r| ==> pat[i + k] == r[k]
  {
    forall k | 0 <= k < |r| ensures pat[i + k] == r[k] {
      assert pat[i..i + |r|][k] == pat[i + k];
    }
  }

  /** The characters of `Escaped(es)`, by position. */
  lemma {:induction false} EscapedIndex(es: seq<char>, k: nat)
    requires k < |es|
    ensures Escaped(es)[2 * k] == '\\' && Escaped(es)[2 * k + 1] == es[k]
    decreases k
  {
    if k > 0 {
      EscapedIndex(es[1..], k - 1);
    }
  }

  /** The tail of a list without an empty class has none either. */
  lemma NoEmptyTail(ts: seq<Token>)
    requires NoEmptyClass(ts) && ts != []
    ensures ts[0] != Set({}) && NoEmptyClass(ts[1..])
  {
    forall k | 0 <= k < |ts[1..]| ensures ts[1..][k] != Set({}) {
      assert ts[1..][k] == ts[k + 1];
    }
  }

  /** Text laid out as the tokens `ts` from index `i` on is read back as exactly `ts`. */
  lemma {:induction false} ReadBack(pat: string, i: nat, ts: seq<Token>)
    requires NoEmptyClass(ts) && RenderedAt(pat, i, ts)
    ensures TokensFrom(pat, i) == Ok(ts)
    decreases |ts|
  {
    if ts != [] {
      var w := |RenderToken(ts[0])|;
      NoEmptyTail(ts);
      TokenRoundTrip(pat, i, ts[0]);
      ReadBack(pat, i + w, ts[1..]);
      assert [ts[0]] + ts[1..] == ts;
    }
  }

  /**
   * Every token list without an empty class is what some pattern compiles to: rendering it
   * and parsing the text gives the list back.
   */
  lemma ParseRender(ts: seq<Token>)
    requires NoEmptyClass(ts)
    ensures Tokens(Render(ts)) == Ok(ts)
  {
    RenderLaidOut([], ts);
    assert [] + Render(ts) == Render(ts);
    ReadBack(Render(ts), 0, ts);
  }

  // ---------------------------------------------------------------- tokenizer examples

  /** Backslash outside a class: `\x` is the literal `x`, and a final lone `\` is itself. */
  lemma EscapeExamples()
    ensures Tokens("\\*a?") == Ok([Lit('*'), Lit('a'), Any])
    ensures Tokens("ab\\") == Ok([Lit('a'), Lit('b'), Lit('\\')])
  {
    var p := "\\*a?";
    assert p[0] == '\\' && p[1] == '*' && p[2] == 'a' && p[3] == '?' && |p| == 4;
    assert TokensFrom(p, 4) == Ok([]);
    assert [Any] + [] == [Any];
    assert TokensFrom(p, 3) == Ok([Any]);
    assert [Lit('a')] + [Any] == [Lit('a'), Any];
    assert [Lit('*')] + [Lit('a'), Any] == [Lit('*'), Lit('a'), Any];
    assert TokensFrom(p, 2) == Ok([Lit('a'), Any]);
    assert TokensFrom(p, 0) == Ok([Lit('*'), Lit('a'), Any]);
    var q := "ab\\";
    assert q[0] == 'a' && q[1] == 'b' && q[2] == '\\' && |q| == 3;
    assert TokensFrom(q, 3) == Ok([]);
    assert [Lit('\\')] + [] == [Lit('\\')];
    assert TokensFrom(q, 2) == Ok([Lit('\\')]);
    assert [Lit('b')] + [Lit('\\')] == [Lit('b'), Lit('\\')];
    assert [Lit('a')] + [Lit('b'), Lit('\\')] == [Lit('a'), Lit('b'), Lit('\\')];
    assert TokensFrom(q, 1) == Ok([Lit('b'), Lit('\\')]);
    assert TokensFrom(q, 0) == Ok([Lit('a'), Lit('b'), Lit('\\')]);
  }

  /** `[` at the end, `[]` with nothing after it, and a class ending in `\` are errors. */
  lemma ClassErrorExamples()
    ensures Tokens("a[") == Err(ClassAtEnd)
    ensures Tokens("[]") == Err(UnclosedClass)
    ensures Tokens("[a\\") == Err(DanglingEscape)
  {
    assert ClassFrom("[]", 2, false, {']'}) == Err(UnclosedClass);
    assert ClassFrom("[a\\", 2, false, {'a'}) == Err(DanglingEscape);
  }

  /** The characters from `a` to `c`. */
  lemma SpanABC()
    ensures Span('c', 'a') == Span('a', 'c') == {'a', 'b', 'c'}
  {
    SpanMembers('c', 'a');
    SpanMembers('a', 'c');
    forall ch: char | ch in Span('a', 'c') ensures ch in {'a', 'b', 'c'} {
      assert 'a' <= ch <= 'c';
    }
  }

  /** A leading `]` is a member, `x-]` is no range, and a range may be written backwards. */
  lemma ClassExamples()
    ensures Tokens("[]]") == Ok([Set({']'})])
    ensures Tokens("[a-]") == Ok([Set({'a', '-'})])
    ensures Tokens("[c-a]") == Tokens("[a-c]") == Ok([Set({'a', 'b', 'c'})])
  {
    var p := "[]]";
    assert p[0] == '[' && p[1] == ']' && p[2] == ']' && |p| == 3;
    assert {} + {']'} == {']'};
    assert ClassFrom(p, 2, false, {']'}) == Ok(({']'}, 3));
    assert ClassFrom(p, 1, true, {}) == Ok(({']'}, 3));
    assert [Set({']'})] + [] == [Set({']'})];
    var q := "[a-]";
    assert q[0] == '[' && q[1] == 'a' && q[2] == '-' && q[3] == ']' && |q| == 4;
    assert ClassFrom(q, 3, false, {'a', '-'}) == Ok(({'a', '-'}, 4));
    assert {'a'} + {'-'} == {'a', '-'} && {} + {'a'} == {'a'};
    assert ClassFrom(q, 2, false, {'a'}) == Ok(({'a', '-'}, 4));
    assert ClassFrom(q, 1, true, {}) == Ok(({'a', '-'}, 4));
    assert [Set({'a', '-'})] + [] == [Set({'a', '-'})];
    SpanABC();
    var r := "[c-a]";
    assert r[0] == '[' && r[1] == 'c' && r[2] == '-' && r[3] == 'a' && r[4] == ']' && |r| == 5;
    assert {} + Span('c', 'a') == {'a', 'b', 'c'};
    assert ClassFrom(r, 1, true, {}) == Ok(({'a', 'b', 'c'}, 5));
    var u := "[a-c]";
    assert u[0] == '[' && u[1] == 'a' && u[2] == '-' && u[3] == 'c' && u[4] == ']' && |u| == 5;
    assert ClassFrom(u, 1, true, {}) == Ok(({'a', 'b', 'c'}, 5));
    assert [Set({'a', 'b', 'c'})] + [] == [Set({'a', 'b', 'c'})];
  }
}
