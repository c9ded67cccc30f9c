/**
  Environment substitution in a site definition, replaceEnvVars of cmd/install-ni.go: a
  loop that splices values into its input, against a template read once, left to right.
 */
module EnvExpansion {

  const SPAN_OPEN: string := "{$"
  const SPAN_CLOSE: string := "}"

  /** `bytes.Index`: the first position of `sep`, or -1. */
  function Index(s: string, sep: string): (i: int)
    ensures -1 <= i && (i >= 0 ==> i + |sep| <= |s|)
  {
    if |s| < |sep| then -1
    else if sep <= s then 0
    else
      var i := Index(s[1..], sep);
      if i < 0 then -1 else i + 1
  }

  predicate At(s: string, sep: string, k: nat) {
    k + |sep| <= |s| && s[k..k + |sep|] == sep
  }

  ghost predicate NoneBelow(s: string, sep: string, n: nat) {
    forall k: nat :: k < n ==> !At(s, sep, k)
  }

  lemma AtDrop(s: string, sep: string, m: nat, k: nat)
    requires m <= |s|
    ensures At(s[m..], sep, k) == At(s, sep, m + k)
  {
    if m + k + |sep| <= |s| {
      assert s[m..][k..k + |sep|] == s[m + k..m + k + |sep|];
    }
  }

  lemma AtTake(s: string, sep: string, m: nat, k: nat)
    requires m <= |s|
    ensures At(s[..m], sep, k) == (k + |sep| <= m && At(s, sep, k))
  {
    if k + |sep| <= m {
      assert s[..m][k..k + |sep|] == s[k..k + |sep|];
    }
  }

  /** The search result: the separator is there, and nowhere before. */
  lemma {:induction false} IndexFinds(s: string, sep: string)
    ensures Index(s, sep) >= 0 ==> At(s, sep, Index(s, sep)) && NoneBelow(s, sep, Index(s, sep))
    ensures Index(s, sep) < 0 ==> NoneBelow(s, sep, |s| + 1)
    decreases |s|
  {
    if |s| >= |sep| && !(sep <= s) {
      IndexFinds(s[1..], sep);
      forall k: nat
        ensures At(s[1..], sep, k) == At(s, sep, k + 1)
      {
        AtDrop(s, sep, 1, k);
      }
      forall k: nat | k <= |s| && (Index(s, sep) < 0 || k < Index(s, sep))
        ensures !At(s, sep, k)
      {
        if k > 0 {
          assert At(s[1..], sep, k - 1) == At(s, sep, k);
        }
      }
    }
  }

  /** The first position is determined by what is there and what is not there before it. */
  lemma IndexIs(s: string, sep: string, i: nat)
    requires At(s, sep, i) && NoneBelow(s, sep, i)
    ensures Index(s, sep) == i
  {
    IndexFinds(s, sep);
    if Index(s, sep) >= 0 {
      assert At(s, sep, Index(s, sep));
    }
  }

  lemma NoneInPrefix(s: string, sep: string, i: nat)
    requires i <= |s| && NoneBelow(s, sep, i) && sep != ""
    ensures Index(s[..i], sep) < 0
  {
    IndexFinds(s[..i], sep);
    var k := Index(s[..i], sep);
    if k >= 0 {
      AtTake(s, sep, i, k);
    }
  }

  // ----- templates

  /** Text with variable spans; the tail holds no complete span. */
  datatype Template = Tail(text: string) | Span(before: string, name: string, next: Template)

  /** The input cut at its spans: each opening is closed by the first closing character after it. */
  function Cut(s: string): Template
    decreases |s|
  {
    var begin := Index(s, SPAN_OPEN);
    if begin < 0 then Tail(s)
    else
      var inner := s[begin + |SPAN_OPEN|..];
      var length := Index(inner, SPAN_CLOSE);
      if length < 0 then Tail(s)
      else Span(s[..begin], inner[..length], Cut(inner[length + |SPAN_CLOSE|..]))
  }

  /** The text of one span with what stands before and after it. */
  function Spell(before: string, name: string, rest: string): string {
    before + (SPAN_OPEN + (name + (SPAN_CLOSE + rest)))
  }

  /** The text a template was cut from. */
  function Uncut(t: Template): string {
    match t
    case Tail(text) => text
    case Span(before, name, next) => Spell(before, name, Uncut(next))
  }

  /** What stands in the output for one span. */
  function Value(name: string, env: string -> string): string {
    if name == "" then SPAN_OPEN + SPAN_CLOSE else env(name)
  }

  /** Each span replaced by the value of its name, once; spans without a name stay. */
  function Render(t: Template, env: string -> string): string {
    match t
    case Tail(text) => text
    case Span(before, name, next) =>
      before + (Value(name, env) + Render(next, env))
  }

  /** No complete span: no opening, or nothing closes the first one. */
  predicate Spanless(s: string) {
    Index(s, SPAN_OPEN) < 0 || Index(s[Index(s, SPAN_OPEN) + |SPAN_OPEN|..], SPAN_CLOSE) < 0
  }

  /** Texts hold no opening, names no closing, and the tail no complete span. */
  predicate WellFormed(t: Template) {
    match t
    case Tail(text) => Spanless(text)
    case Span(before, name, next) => Index(before, SPAN_OPEN) < 0 && Index(name, SPAN_CLOSE) < 0 && WellFormed(next)
  }

  // ----- the first span of a text

  lemma FirstOpening(before: string, inner: string)
    requires Index(before, SPAN_OPEN) < 0
    ensures Index(before + (SPAN_OPEN + inner), SPAN_OPEN) == |before|
  {
    var s := before + (SPAN_OPEN + inner);
    IndexFinds(before, SPAN_OPEN);
    forall k: nat | k < |before|
      ensures !At(s, SPAN_OPEN, k)
    {
      if k + 2 <= |before| {
        assert s[..|before|] == before;
        AtTake(s, SPAN_OPEN, |before|, k);
      } else {
        assert s[k..k + 2][1] == s[|before|] == '{' != SPAN_OPEN[1];
      }
    }
    assert s[|before|..|before| + 2] == SPAN_OPEN;
    IndexIs(s, SPAN_OPEN, |before|);
  }

  lemma FirstClosing(name: string, rest: string)
    requires Index(name, SPAN_CLOSE) < 0
    ensures Index(name + (SPAN_CLOSE + rest), SPAN_CLOSE) == |name|
  {
    var s := name + (SPAN_CLOSE + rest);
    IndexFinds(name, SPAN_CLOSE);
    forall k: nat | k < |name|
      ensures !At(s, SPAN_CLOSE, k)
    {
      assert s[..|name|] == name;
      AtTake(s, SPAN_CLOSE, |name|, k);
    }
    assert s[|name|..|name| + 1] == SPAN_CLOSE;
    IndexIs(s, SPAN_CLOSE, |name|);
  }

  /** A spelled span is cut off as it was spelled. */
  lemma CutSpelled(before: string, name: string, rest: string)
    requires Index(before, SPAN_OPEN) < 0 && Index(name, SPAN_CLOSE) < 0
    ensures Cut(Spell(before, name, rest)) == Span(before, name, Cut(rest))
  {
    hide Index;
    var inner := name + (SPAN_CLOSE + rest);
    var s := before + (SPAN_OPEN + inner);
    FirstOpening(before, inner);
    assert s[|before| + 2..] == inner && s[..|before|] == before;
    FirstClosing(name, rest);
    assert inner[|name| + 1..] == rest && inner[..|name|] == name;
  }

  lemma ThreeParts(s: string, i: nat, j: nat)
    requires i <= j <= |s|
    ensures s == s[..i] + (s[i..j] + s[j..])
  {
  }

  /** And a text whose first span is found is the spelling of its parts. */
  lemma FirstSpan(s: string, begin: nat, length: nat)
    requires Index(s, SPAN_OPEN) == begin && Index(s[begin + 2..], SPAN_CLOSE) == length
    ensures s == Spell(s[..begin], s[begin + 2..][..length], s[begin + 2..][length + 1..])
    ensures Index(s[..begin], SPAN_OPEN) < 0 && Index(s[begin + 2..][..length], SPAN_CLOSE) < 0
  {
    hide Index;
    var inner := s[begin + 2..];
    IndexFinds(s, SPAN_OPEN);
    IndexFinds(inner, SPAN_CLOSE);
    NoneInPrefix(s, SPAN_OPEN, begin);
    NoneInPrefix(inner, SPAN_CLOSE, length);
    ThreeParts(inner, length, length + 1);
    ThreeParts(s, begin, begin + 2);
  }

  // ----- templates and texts are in one-to-one correspondence

  /** Cutting loses nothing: the template puts the input back together, and is well formed. */
  lemma {:induction false} UncutCut(s: string)
    ensures Uncut(Cut(s)) == s && WellFormed(Cut(s))
    decreases |s|
  {
    hide Index, Spell;
    var begin := Index(s, SPAN_OPEN);
    if begin >= 0 {
      var inner := s[begin + 2..];
      var length := Index(inner, SPAN_CLOSE);
      if length >= 0 {
        FirstSpan(s, begin, length);
        UncutCut(inner[length + 1..]);
      }
    }
  }

  /** Every well-formed template is the cut of its text: there is only one way to read an input. */
  lemma {:induction false} CutUncut(t: Template)
    requires WellFormed(t)
    ensures Cut(Uncut(t)) == t
  {
    hide Index, Spell;
    match t
    case Tail(text) =>
    case Span(before, name, next) =>
      CutSpelled(before, name, Uncut(next));
      CutUncut(next);
  }

  // ----- the splicing loop

  ghost predicate IsSuffix(unread: string, original: string) {
    |unread| <= |original| && unread == original[|original| - |unread|..]
  }

  /**
    Main result: the loop renders the template of its original input. Past the offset there
    is always an unread suffix of that input, so no substituted value is scanned again,
    and the loop ends whatever the values hold.
   */
  method ReplaceEnvVars(original: string, env: string -> string) returns (input: string)
    ensures input == Render(Cut(original), env)
  {
    hide Index, Cut, Render, Spell;
    input := original;
    var offset := 0;
    ghost var kept, unread := "", original;
    assert input == kept + unread && Render(Cut(original), env) == kept + Render(Cut(unread), env);
    while true
      invariant offset == |kept| && input == kept + unread && input[offset..] == unread
      invariant IsSuffix(unread, original)
      invariant Render(Cut(original), env) == kept + Render(Cut(unread), env)
      decreases |unread|
    {
      var begin := Index(input[offset..], SPAN_OPEN);
      if begin < 0 {
        SpanlessStays(unread, env);
        break;
      }
      begin := begin + offset;
      Beyond(kept, unread, begin + 2);
      var end := Index(input[begin + |SPAN_OPEN|..], SPAN_CLOSE);
      if end < 0 {
        SpanlessStays(unread, env);
        break;
      }
      end := end + begin + |SPAN_OPEN|;
      ghost var before, name, rest := SpanAt(kept, unread, begin, end);
      RenderSpan(kept, before, name, rest, env);
      ShorterSuffix(before, name, rest, original);
      var envVarName := input[begin + |SPAN_OPEN|..end];
      if |envVarName| == 0 {
        EmptySpan(kept, before, rest);
        offset := end + |SPAN_CLOSE|;
        kept, unread := kept + (before + (SPAN_OPEN + SPAN_CLOSE)), rest;
        continue;
      }
      var envVarValue := env(envVarName);
      input := input[..begin] + (envVarValue + input[end + |SPAN_CLOSE|..]);
      offset := begin + |envVarValue|;
      Spliced(kept, before, envVarValue, rest);
      kept, unread := kept + (before + envVarValue), rest;
    }
  }

  lemma Beyond(kept: string, unread: string, k: nat)
    requires |kept| <= k <= |kept| + |unread|
    ensures (kept + unread)[k..] == unread[k - |kept|..]
  {
  }

  lemma Spliced(kept: string, before: string, value: string, rest: string)
    ensures (kept + before) + (value + rest) == (kept + (before + value)) + rest
    ensures ((kept + (before + value)) + rest)[|kept| + |before| + |value|..] == rest
  {
  }

  lemma EmptySpan(kept: string, before: string, rest: string)
    ensures kept + Spell(before, "", rest) == (kept + (before + (SPAN_OPEN + SPAN_CLOSE))) + rest
    ensures (kept + Spell(before, "", rest))[|kept| + |before| + 3..] == rest
  {
    assert SPAN_OPEN + ("" + (SPAN_CLOSE + rest)) == (SPAN_OPEN + SPAN_CLOSE) + rest;
    Spliced(kept, before, SPAN_OPEN + SPAN_CLOSE, rest);
    var v := SPAN_OPEN + SPAN_CLOSE;
    assert kept + (before + (v + rest)) == (kept + before) + (v + rest);
  }

  lemma ShorterSuffix(before: string, name: string, rest: string, original: string)
    requires IsSuffix(Spell(before, name, rest), original)
    ensures IsSuffix(rest, original) && |rest| < |Spell(before, name, rest)|
  {
    var unread := Spell(before, name, rest);
    assert unread == (before + SPAN_OPEN + name + SPAN_CLOSE) + rest;
    assert rest == unread[|unread| - |rest|..];
  }

  /** Text without a complete span is rendered as it is. */
  lemma SpanlessStays(s: string, env: string -> string)
    requires Spanless(s)
    ensures Render(Cut(s), env) == s
  {
    hide Index;
  }

  /** The parts that the two searches of one step delimit in the input. */
  lemma SpanAt(kept: string, unread: string, begin: nat, end: nat) returns (before: string, name: string, rest: string)
    requires |kept| <= begin && begin + 2 <= end
    requires Index(unread, SPAN_OPEN) == begin - |kept|
    requires Index(unread[begin - |kept| + 2..], SPAN_CLOSE) == end - begin - 2
    ensures unread == Spell(before, name, rest)
    ensures Index(before, SPAN_OPEN) < 0 && Index(name, SPAN_CLOSE) < 0
    ensures begin == |kept| + |before| && end == begin + 2 + |name|
    ensures |kept + unread| == end + 1 + |rest|
    ensures (kept + unread)[..begin] == kept + before
    ensures (kept + unread)[begin + 2..end] == name
    ensures (kept + unread)[end + 1..] == rest
  {
    hide Index, Spell;
    var inner := unread[begin - |kept| + 2..];
    before, name, rest := unread[..begin - |kept|], inner[..end - begin - 2], inner[end - begin - 1..];
    FirstSpan(unread, begin - |kept|, end - begin - 2);
    SpelledSlices(kept, before, name, rest);
  }

  lemma SpelledSlices(kept: string, before: string, name: string, rest: string)
    ensures var s := kept + Spell(before, name, rest);
      var begin, end := |kept| + |before|, |kept| + |before| + 2 + |name|;
      && |s| == end + 1 + |rest|
      && s[..begin] == kept + before && s[begin + 2..end] == name && s[end + 1..] == rest
  {
  }

  lemma RenderSpan(kept: string, before: string, name: string, rest: string, env: string -> string)
    requires Index(before, SPAN_OPEN) < 0 && Index(name, SPAN_CLOSE) < 0
    ensures kept + Render(Cut(Spell(before, name, rest)), env)
      == (kept + (before + Value(name, env))) + Render(Cut(rest), env)
  {
    hide Index, Spell, Cut;
    CutSpelled(before, name, rest);
    var d := Render(Cut(rest), env);
    Spliced(kept, before, Value(name, env), d);
    assert kept + (before + (Value(name, env) + d)) == (kept + before) + (Value(name, env) + d);
  }

  // ----- what the rendering means

  /** No occurrence of a separator in a text. */
  ghost predicate Without(s: string, sep: string) {
    forall k: nat :: !At(s, sep, k)
  }

  lemma {:induction false} WithoutIsNotFound(s: string, sep: string)
    ensures Without(s, sep) <==> Index(s, sep) < 0
  {
    IndexFinds(s, sep);
    if Index(s, sep) >= 0 {
      assert At(s, sep, Index(s, sep));
    }
  }

  /**
    Main result: a text with a first span is that text up to the span, the value of the
    variable or the span itself if it has no name, and what the rest comes to.
   */
  lemma {:induction false} SpanIsReplaced(before: string, name: string, rest: string, env: string -> string)
    requires Without(before, "{$") && Without(name, "}")
    ensures Render(Cut(before + ("{$" + (name + ("}" + rest)))), env)
      == before + ((if name == "" then "{$}" else env(name)) + Render(Cut(rest), env))
  {
    hide Index, Without;
    WithoutIsNotFound(before, "{$");
    WithoutIsNotFound(name, "}");
    CutSpelled(before, name, rest);
  }

  /** Main result: a text in which nothing closes an opening comes out as it is. */
  lemma {:induction false} UnclosedIsKept(s: string, env: string -> string)
    requires forall k: nat :: At(s, "{$", k) ==> Without(s[k + 2..], "}")
    ensures Render(Cut(s), env) == s
  {
    hide Index, Render, Cut;
    IndexFinds(s, SPAN_OPEN);
    var k := Index(s, SPAN_OPEN);
    if k >= 0 {
      assert At(s, SPAN_OPEN, k);
      WithoutIsNotFound(s[k + 2..], SPAN_CLOSE);
    }
    SpanlessStays(s, env);
  }

  /** When every name stands for its own span, nothing changes. */
  lemma {:induction false} SpansForThemselvesChangeNothing(t: Template, env: string -> string)
    requires forall name :: env(name) == SPAN_OPEN + name + SPAN_CLOSE
    ensures Render(t, env) == Uncut(t)
  {
    match t
    case Tail(text) =>
    case Span(before, name, next) =>
      SpansForThemselvesChangeNothing(next, env);
      var rest := Uncut(next);
      assert Value(name, env) == SPAN_OPEN + name + SPAN_CLOSE;
      assert (SPAN_OPEN + name + SPAN_CLOSE) + rest == SPAN_OPEN + (name + (SPAN_CLOSE + rest));
  }

  /** An input without an opening or without a closing is returned as it is. */
  lemma UnclosedInputIsKept(s: string, env: string -> string)
    requires Index(s, SPAN_OPEN) < 0 || Index(s, SPAN_CLOSE) < 0
    ensures Render(Cut(s), env) == s
  {
    hide Index;
    var begin := Index(s, SPAN_OPEN);
    if begin >= 0 {
      var inner := s[begin + 2..];
      IndexFinds(s, SPAN_CLOSE);
      IndexFinds(inner, SPAN_CLOSE);
      var k := Index(inner, SPAN_CLOSE);
      if k >= 0 {
        AtDrop(s, SPAN_CLOSE, begin + 2, k);
      }
    }
  }

  /** A value is never scanned again: an opening inside a value stays in the output. */
  lemma ValuesAreNotRescanned(name: string, rest: string, env: string -> string)
    requires name != "" && Index(name, SPAN_CLOSE) < 0
    ensures Render(Cut(SPAN_OPEN + (name + (SPAN_CLOSE + rest))), env) == env(name) + Render(Cut(rest), env)
  {
    hide Index;
    CutSpelled("", name, rest);
    assert Spell("", name, rest) == SPAN_OPEN + (name + (SPAN_CLOSE + rest));
  }
}
