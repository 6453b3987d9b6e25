/** The response pipeline of the local-model chat wrapper: a model's raw
    answer has its `<think>...</think>` reasoning removed and is trimmed,
    lower-case JSON booleans are rewritten to Python's spelling, and the
    text is parsed as a Python literal of the expected container type,
    first as a whole and then, if that raises, from the first opening to the
    last closing bracket.

    The literal parser (`ast.literal_eval`) is a parameter: `parse(t)` is the
    value it returns for `t`, or `None` when it raises. Every property below
    holds for every such parser. */
module Normalizer {
  import opened Optional
  import opened Text
  import opened Values

  /** The `expected_type` a caller asks for: `list` or `dict`. */
  datatype Shape = ListShape | DictShape

  /** Python's `isinstance(v, expected_type)` for the two container types. */
  predicate HasShape(v: Value, shape: Shape) {
    match shape
    case ListShape => v.VList?
    case DictShape => v.VDict?
  }

  type Parser = string -> Option<Value>

  const OpenTag := "<think>"
  const CloseTag := "</think>"

  // ---------------------------------------------------------------------------
  // Reasoning strip

  /** `s` holds a complete reasoning span: an opening tag followed, at or
      after its end, by a closing tag. */
  ghost predicate HasThinkSpan(s: string) {
    exists i, j :: 0 <= i && i + |OpenTag| <= j && IsAt(s, i, OpenTag) && IsAt(s, j, CloseTag)
  }

  /** `re.sub(r'<think>.*?</think>', '', s, flags=re.DOTALL)`: the leftmost
      span runs from the first opening tag to the first closing tag after
      it; it is deleted and scanning resumes after it. */
  function RemoveThinkSpans(s: string): (r: string)
    ensures |r| <= |s|
    decreases |s|
  {
    match IndexOf(s, OpenTag)
    case None => s
    case Some(p) =>
      var rest := s[p + |OpenTag|..];
      match IndexOf(rest, CloseTag)
      case None => s
      case Some(q) => s[..p] + RemoveThinkSpans(rest[q + |CloseTag|..])
  }

  /** A complete span is always found and deleted, so the text shrinks. */
  lemma RemoveThinkSpansShortens(s: string)
    requires HasThinkSpan(s)
    ensures |RemoveThinkSpans(s)| < |s|
  {
    var i, j :| 0 <= i && i + |OpenTag| <= j && IsAt(s, i, OpenTag) && IsAt(s, j, CloseTag);
    var p := IndexOf(s, OpenTag).value;
    var rest := s[p + |OpenTag|..];
    IsAtSuffix(s, p + |OpenTag|, j - (p + |OpenTag|), CloseTag);
    var q := IndexOf(rest, CloseTag).value;
    assert RemoveThinkSpans(s) == s[..p] + RemoveThinkSpans(rest[q + |CloseTag|..]);
  }

  /** Without a complete span nothing matches and the text is unchanged. */
  lemma RemoveThinkSpansKeeps(s: string)
    requires !HasThinkSpan(s)
    ensures RemoveThinkSpans(s) == s
  {
    match IndexOf(s, OpenTag)
    case None =>
    case Some(p) =>
      var rest := s[p + |OpenTag|..];
      forall k ensures !IsAt(rest, k, CloseTag) {
        IsAtSuffix(s, p + |OpenTag|, k, CloseTag);
      }
  }

  /** The deletion changes the text exactly when it holds a complete span,
      and a deletion always shortens it. */
  lemma RemoveThinkSpansChanges(s: string)
    ensures RemoveThinkSpans(s) == s <==> !HasThinkSpan(s)
    ensures HasThinkSpan(s) ==> |RemoveThinkSpans(s)| < |s|
  {
    if HasThinkSpan(s) {
      RemoveThinkSpansShortens(s);
    } else {
      RemoveThinkSpansKeeps(s);
    }
  }

  /** The first occurrence of a non-empty pattern is the one with none before it. */
  lemma IndexOfIs(s: string, pat: string, p: nat)
    requires |pat| > 0 && IsAt(s, p, pat)
    requires forall k :: 0 <= k < p ==> !IsAt(s, k, pat)
    ensures IndexOf(s, pat) == Some(p)
  {
  }

  /** A window that fits inside `x` reads the same in `x + y`. */
  lemma IsAtPrefix(x: string, y: string, k: nat, pat: string)
    requires k + |pat| <= |x|
    ensures IsAt(x + y, k, pat) <==> IsAt(x, k, pat)
  {
    assert (x + y)[k..k + |pat|] == x[k..k + |pat|];
  }

  /** In `x + pat + y`, where `pat` starts nowhere inside `x + pat` before
      the end of `x`, the first occurrence is the one right after `x`. */
  lemma FirstAt(x: string, pat: string, y: string)
    requires |pat| > 0
    requires forall k :: 0 <= k < |x| ==> !IsAt(x + pat, k, pat)
    ensures IndexOf(x + pat + y, pat) == Some(|x|)
    ensures (x + pat + y)[..|x|] == x && (x + pat + y)[|x| + |pat|..] == y
  {
    var s := x + pat + y;
    forall k | 0 <= k < |x| ensures !IsAt(s, k, pat) {
      assert !IsAt(x + pat, k, pat);
      IsAtPrefix(x + pat, y, k, pat);
    }
    assert s[|x|..|x| + |pat|] == pat;
    IndexOfIs(s, pat, |x|);
  }

  /** What the deletion keeps: a text made of a prefix `a` with no opening
      tag starting in it, an opening tag, a body `m` with no closing tag
      starting in it, a closing tag and a rest `b` loses exactly the span
      from the tag to the first closing tag; `a` is kept verbatim and the
      deletion goes on in `b`. With `RemoveThinkSpansKeeps` this pins down
      the result on every text: either it holds no complete span, or its
      first opening tag and the first closing tag after it split it so. */
  lemma RemoveThinkSpansSplit(a: string, m: string, b: string)
    requires forall k :: 0 <= k < |a| ==> !IsAt(a + OpenTag, k, OpenTag)
    requires forall k :: 0 <= k < |m| ==> !IsAt(m + CloseTag, k, CloseTag)
    ensures RemoveThinkSpans(a + OpenTag + m + CloseTag + b) == a + RemoveThinkSpans(b)
  {
    var rest := m + CloseTag + b;
    assert a + OpenTag + m + CloseTag + b == a + OpenTag + rest;
    FirstAt(a, OpenTag, rest);
    FirstAt(m, CloseTag, b);
    var s := a + OpenTag + rest;
    assert RemoveThinkSpans(s) == s[..|a|] + RemoveThinkSpans(rest[|m| + |CloseTag|..]);
  }

  /** `_strip_thinking`: reasoning spans removed, then `strip()`. */
  function StripThinking(s: string): (r: string)
    ensures |r| <= |s|
    ensures |r| > 0 ==> !IsSpace(r[0]) && !IsSpace(r[|r| - 1])
    ensures !HasThinkSpan(s) ==> r == Strip(s)
  {
    RemoveThinkSpansChanges(s);
    Strip(RemoveThinkSpans(s))
  }

  /** `_strip_thinking` on a text whose first span is delimited as in
      `RemoveThinkSpansSplit`: the prefix before the span and whatever the
      rest keeps, trimmed as one text. */
  lemma StripThinkingSplit(a: string, m: string, b: string)
    requires forall k :: 0 <= k < |a| ==> !IsAt(a + OpenTag, k, OpenTag)
    requires forall k :: 0 <= k < |m| ==> !IsAt(m + CloseTag, k, CloseTag)
    ensures StripThinking(a + OpenTag + m + CloseTag + b) == Strip(a + RemoveThinkSpans(b))
  {
    RemoveThinkSpansSplit(a, m, b);
  }

  // ---------------------------------------------------------------------------
  // Boolean literal fix

  /** The character at `k` after the fix: the `t` of `true` and the `f` of
      `false` are capitalised wherever those words occur, inside longer
      words included; every other character is kept. */
  function FixedAt(s: string, k: nat): char
    requires k < |s|
  {
    if IsAt(s, k, "true") then 'T'
    else if IsAt(s, k, "false") then 'F'
    else s[k]
  }

  /** `_boolean_fix`: `s.replace("true", "True").replace("false", "False")`. */
  function BooleanFix(s: string): (r: string)
    ensures |r| == |s|
    ensures forall k :: 0 <= k < |s| ==> r[k] == FixedAt(s, k)
  {
    BooleanFixPointwise(s);
    Replace(Replace(s, "true", "True"), "false", "False")
  }

  /** The two replacements commute with the pointwise description: the first
      only turns `t` into `T`, which cannot create or destroy a `false`. */
  lemma BooleanFixPointwise(s: string)
    ensures var r := Replace(Replace(s, "true", "True"), "false", "False");
            |r| == |s| && forall k :: 0 <= k < |s| ==> r[k] == FixedAt(s, k)
  {
    var s1 := Replace(s, "true", "True");
    assert "True" == ['T'] + "true"[1..];
    ReplaceFirstLetter(s, "true", 'T');
    assert "False" == ['F'] + "false"[1..];
    ReplaceFirstLetter(s1, "false", 'F');
    forall x | 0 <= x < |s| ensures s1[x] == s[x] || (s[x] == 't' && s1[x] == 'T') {
      if IsAt(s, x, "true") {
        assert s[x + 0] == "true"[0];
      }
    }
    forall k ensures IsAt(s1, k, "false") <==> IsAt(s, k, "false") {
      IsAtUnaffected(s, s1, 't', 'T', "false", k);
    }
  }

  /** Every lower-case boolean word in the fixed text was already in the input. */
  lemma BooleanFixOccurrence(s: string, k: int, w: string)
    requires w == "true" || w == "false"
    ensures IsAt(BooleanFix(s), k, w) ==> IsAt(s, k, w)
  {
    var r := BooleanFix(s);
    if IsAt(r, k, w) {
      forall j | 0 <= j < |w| ensures s[k + j] == w[j] {
        assert r[k + j] == FixedAt(s, k + j);
      }
    }
  }

  /** The fixed text holds no lower-case `true` or `false`. */
  lemma BooleanFixLeavesNoLiterals(s: string)
    ensures forall k :: !IsAt(BooleanFix(s), k, "true") && !IsAt(BooleanFix(s), k, "false")
  {
    var r := BooleanFix(s);
    forall k ensures !IsAt(r, k, "true") && !IsAt(r, k, "false") {
      BooleanFixOccurrence(s, k, "true");
      BooleanFixOccurrence(s, k, "false");
      if IsAt(s, k, "true") || IsAt(s, k, "false") {
        assert r[k] == FixedAt(s, k);
        NotAt(r, k, "true", 0);
        NotAt(r, k, "false", 0);
      }
    }
  }

  /** Text without lower-case `true`/`false` passes through unchanged. */
  lemma BooleanFixNoLiterals(s: string)
    requires forall k :: !IsAt(s, k, "true") && !IsAt(s, k, "false")
    ensures BooleanFix(s) == s
  {
  }

  /** Applying the fix twice is applying it once. */
  lemma BooleanFixIdempotent(s: string)
    ensures BooleanFix(BooleanFix(s)) == BooleanFix(s)
  {
    BooleanFixLeavesNoLiterals(s);
    BooleanFixNoLiterals(BooleanFix(s));
  }

  /** A character that starts neither word is kept. */
  lemma FixedAtPlain(s: string, k: nat)
    requires k < |s| && s[k] != 't' && s[k] != 'f'
    ensures FixedAt(s, k) == s[k]
  {
    NotAt(s, k, "true", 0);
    NotAt(s, k, "false", 0);
  }

  /** The rewrite is not word-aware: it reaches into longer words. */
  lemma BooleanFixInsideWord(s: string)
    requires s == "untrue"
    ensures BooleanFix(s) == "unTrue"
  {
    FixedAtPlain(s, 0); FixedAtPlain(s, 1);
    assert IsAt(s, 2, "true");
    FixedAtPlain(s, 3); FixedAtPlain(s, 4); FixedAtPlain(s, 5);
  }

  /** A word that merely starts with `true` is capitalised too. */
  lemma BooleanFixWordPrefix(s: string)
    requires s == "truest"
    ensures BooleanFix(s) == "Truest"
  {
    assert IsAt(s, 0, "true");
    FixedAtPlain(s, 1); FixedAtPlain(s, 2); FixedAtPlain(s, 3); FixedAtPlain(s, 4);
    NotAt(s, 5, "false", 0);
  }

  /** Quoted string content is rewritten as well. */
  lemma BooleanFixInsideQuotes(s: string)
    requires s == "'false'"
    ensures BooleanFix(s) == "'False'"
  {
    FixedAtPlain(s, 0);
    NotAt(s, 1, "true", 0);
    assert IsAt(s, 1, "false");
    FixedAtPlain(s, 2); FixedAtPlain(s, 3); FixedAtPlain(s, 4); FixedAtPlain(s, 5); FixedAtPlain(s, 6);
  }

  // ---------------------------------------------------------------------------
  // Type check with bracket fallback

  function OpenBracket(shape: Shape): char {
    if shape == ListShape then '[' else '{'
  }

  function CloseBracket(shape: Shape): char {
    if shape == ListShape then ']' else '}'
  }

  /** `_type_check`: the whole text's value when it parses to the expected
      type; no value when it parses to another type; and only when the whole
      parse raises, the value of the slice from the first opening bracket to
      the last closing bracket, inclusive, if both exist in that order and
      the slice parses to the expected type. */
  function TypeCheck(output: string, shape: Shape, parse: Parser): (r: Option<Value>)
    ensures r.Some? ==> HasShape(r.value, shape)
  {
    match parse(output)
    case Some(v) => if HasShape(v, shape) then Some(v) else None
    case None =>
      var start := Find(output, OpenBracket(shape));
      var end := RFind(output, CloseBracket(shape));
      if start != -1 && end != -1 && start < end then
        match parse(output[start..end + 1])
        case Some(v) => if HasShape(v, shape) then Some(v) else None
        case None => None
      else None
  }

  /** When the whole text parses, its value decides alone: accepted when of
      the expected type, rejected otherwise, with no bracket fallback. */
  lemma TypeCheckWhole(output: string, shape: Shape, parse: Parser)
    requires parse(output).Some?
    ensures HasShape(parse(output).value, shape) ==> TypeCheck(output, shape, parse) == parse(output)
    ensures !HasShape(parse(output).value, shape) ==> TypeCheck(output, shape, parse).None?
  {
  }

  /** When the whole parse raises and the text has an opening bracket
      before a closing one, the answer is the parse of the slice from the
      first opening to the last closing bracket, if it has the expected type. */
  lemma TypeCheckFallback(output: string, shape: Shape, parse: Parser, start: nat, end: nat)
    requires parse(output).None?
    requires start < end < |output|
    requires output[start] == OpenBracket(shape) && OpenBracket(shape) !in output[..start]
    requires output[end] == CloseBracket(shape) && CloseBracket(shape) !in output[end + 1..]
    ensures var sliced := parse(output[start..end + 1]);
            TypeCheck(output, shape, parse) == if sliced.Some? && HasShape(sliced.value, shape) then sliced else None
  {
    FindIsFirst(output, OpenBracket(shape), start);
    RFindIsLast(output, CloseBracket(shape), end);
  }

  /** When the whole parse raises and no opening bracket precedes a closing
      one, there is no answer. */
  lemma TypeCheckNoSlice(output: string, shape: Shape, parse: Parser)
    requires parse(output).None?
    requires forall i, j :: 0 <= i < j < |output| && output[i] == OpenBracket(shape) ==> output[j] != CloseBracket(shape)
    ensures TypeCheck(output, shape, parse).None?
  {
  }

  /** Prose around a bracketed answer is dropped: when the text before the
      answer holds no opening bracket and the text after it no closing
      bracket, and the whole text does not parse, the answer is the parse of
      the bracketed part, nested brackets included. */
  lemma TypeCheckDropsProse(prefix: string, answer: string, suffix: string, shape: Shape, parse: Parser)
    requires |answer| >= 2
    requires answer[0] == OpenBracket(shape) && answer[|answer| - 1] == CloseBracket(shape)
    requires OpenBracket(shape) !in prefix && CloseBracket(shape) !in suffix
    requires parse(prefix + answer + suffix).None?
    ensures var inner := parse(answer);
            TypeCheck(prefix + answer + suffix, shape, parse) == if inner.Some? && HasShape(inner.value, shape) then inner else None
  {
    var output := prefix + answer + suffix;
    var start := |prefix|;
    var end := |prefix| + |answer| - 1;
    assert output[..start] == prefix;
    assert output[end + 1..] == suffix;
    assert output[start..end + 1] == answer;
    TypeCheckFallback(output, shape, parse, start, end);
  }

  /** The prose-wrapped list `Sure! Here you go: ["a", "b"] Hope that helps.`
      is recovered as the two-element list. */
  lemma TypeCheckProseExample(output: string, parse: Parser)
    requires output == "Sure! Here you go: " + "[\"a\", \"b\"]" + " Hope that helps."
    requires parse(output).None?
    requires parse("[\"a\", \"b\"]") == Some(VList([VStr("a"), VStr("b")]))
    ensures TypeCheck(output, ListShape, parse) == Some(VList([VStr("a"), VStr("b")]))
  {
    var prefix := "Sure! Here you go: ";
    var suffix := " Hope that helps.";
    assert forall k :: 0 <= k < |prefix| ==> prefix[k] != '[';
    assert forall k :: 0 <= k < |suffix| ==> suffix[k] != ']';
    TypeCheckDropsProse(prefix, "[\"a\", \"b\"]", suffix, ListShape, parse);
  }

  // ---------------------------------------------------------------------------
  // The whole pipeline

  /** One prediction through `_strip_thinking`, `_boolean_fix` and
      `_type_check`, in that order. */
  function Normalize(raw: string, shape: Shape, parse: Parser): (r: Option<Value>)
    ensures r.Some? ==> HasShape(r.value, shape)
  {
    TypeCheck(BooleanFix(StripThinking(raw)), shape, parse)
  }

  /** The parser only ever sees text without lower-case boolean words,
      without surrounding whitespace and no longer than the raw answer: a
      whole-text parse it accepts is what the pipeline returns. */
  lemma NormalizeParsesCleanedText(raw: string, shape: Shape, parse: Parser)
    ensures var t := BooleanFix(StripThinking(raw));
            && |t| <= |raw|
            && (|t| > 0 ==> !IsSpace(t[0]) && !IsSpace(t[|t| - 1]))
            && (forall k :: !IsAt(t, k, "true") && !IsAt(t, k, "false"))
            && (parse(t).Some? && HasShape(parse(t).value, shape) ==> Normalize(raw, shape, parse) == parse(t))
  {
    var u := StripThinking(raw);
    var t := BooleanFix(u);
    BooleanFixLeavesNoLiterals(u);
    if |t| > 0 {
      assert t[0] == FixedAt(u, 0);
      assert t[|t| - 1] == FixedAt(u, |t| - 1);
    }
  }
}
