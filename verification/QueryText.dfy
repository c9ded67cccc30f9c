/**
  Query trees of common/sql: the text that query.String prints, the expression that
  queryBuilder.Expression builds, and a reader for the printed text. Texts are sequences
  of pieces; what a converter prints for a leaf is one piece.
 */
module QueryText {
  import opened Results

  datatype Operation = And | Or

  datatype Query = Query(op: Operation, subs: seq<Sub>)

  /** A nested query, or a leaf with the conditions that its converters produce. */
  datatype Sub = Nested(query: Query) | Leaf(conditions: seq<string>)

  datatype Piece = Open | Close | Word(op: Operation) | Atom(name: string)

  type Text = seq<Piece>

  // ----- printing

  /** The texts of the children, in order. */
  function Wheres(subs: seq<Sub>): seq<Text> {
    if subs == [] then []
    else Wheres(subs[..|subs| - 1]) + WheresOf(subs[|subs| - 1])
  }

  function WheresOf(sub: Sub): seq<Text> {
    match sub
    case Nested(q) => [Print(q)]
    case Leaf(conditions) => seq(|conditions|, i requires 0 <= i < |conditions| => [Atom(conditions[i])])
  }

  /** `strings.Join` with ") AND (" or ") OR (" between the texts. */
  function Join(ws: seq<Text>, op: Operation): Text {
    if ws == [] then []
    else if |ws| == 1 then ws[0]
    else Join(ws[..|ws| - 1], op) + [Close, Word(op), Open] + ws[|ws| - 1]
  }

  /** Parentheses go around the children only when there are several. */
  function Assemble(ws: seq<Text>, op: Operation): Text {
    if |ws| > 1 then [Open] + Join(ws, op) + [Close] else Join(ws, op)
  }

  function Print(q: Query): Text {
    Assemble(Wheres(q.subs), q.op)
  }

  method String(q: Query) returns (text: Text)
    ensures text == Print(q)
  {
    var wheres: seq<Text> := [];
    for i := 0 to |q.subs|
      invariant wheres == Wheres(q.subs[..i])
    {
      assert q.subs[..i + 1][..i] == q.subs[..i];
      match q.subs[i]
      case Nested(sub) =>
        var subQueryString := String(sub);
        wheres := wheres + [subQueryString];
      case Leaf(conditions) =>
        ghost var before := wheres;
        for j := 0 to |conditions|
          invariant wheres == before + WheresOf(q.subs[i])[..j]
        {
          wheres := wheres + [[Atom(conditions[j])]];
        }
    }
    assert q.subs[..|q.subs|] == q.subs;
    text := Assemble(wheres, q.op);
  }

  // ----- building

  datatype Ex = Condition(name: string) | All(parts: seq<Ex>) | Any(parts: seq<Ex>)

  function Combine(parts: seq<Ex>, op: Operation): Option<Ex> {
    if parts == [] then None else if op == And then Some(All(parts)) else Some(Any(parts))
  }

  function PartsOf(sub: Sub): seq<Ex> {
    match sub
    case Nested(q) => var e := Built(q); if e.Some? then [e.value] else []
    case Leaf(conditions) => seq(|conditions|, i requires 0 <= i < |conditions| => Condition(conditions[i]))
  }

  function Parts(subs: seq<Sub>): seq<Ex> {
    if subs == [] then []
    else Parts(subs[..|subs| - 1]) + PartsOf(subs[|subs| - 1])
  }

  function Built(q: Query): Option<Ex> {
    Combine(Parts(q.subs), q.op)
  }

  class QueryBuilder {
    const enquirer: Query
    var wheres: seq<Ex>

    constructor (enquirer: Query)
      ensures this.enquirer == enquirer && wheres == []
    {
      this.enquirer, wheres := enquirer, [];
    }

    /** Appends to what earlier calls left in `wheres`. */
    method Expression() returns (ex: Option<Ex>)
      modifies this
      ensures wheres == old(wheres) + Parts(enquirer.subs)
      ensures ex == Combine(wheres, enquirer.op)
      decreases enquirer
    {
      var subs := enquirer.subs;
      for i := 0 to |subs|
        invariant wheres == old(wheres) + Parts(subs[..i])
      {
        assert subs[..i + 1][..i] == subs[..i];
        ghost var before := wheres;
        match subs[i]
        case Nested(sub) =>
          var builder := new QueryBuilder(sub);
          var expression := builder.Expression();
          assert builder.wheres == Parts(sub.subs);
          if expression.Some? {
            wheres := wheres + [expression.value];
          }
          assert wheres == before + PartsOf(subs[i]);
        case Leaf(conditions) =>
          for j := 0 to |conditions|
            invariant wheres == before + PartsOf(subs[i])[..j]
          {
            wheres := wheres + [Condition(conditions[j])];
          }
          assert wheres == before + PartsOf(subs[i]);
      }
      assert subs[..|subs|] == subs;
      ex := Combine(wheres, enquirer.op);
    }
  }

  // ----- meaning

  predicate Holds(e: Ex, env: string -> bool) {
    match e
    case Condition(name) => env(name)
    case All(parts) => forall i :: 0 <= i < |parts| ==> Holds(parts[i], env)
    case Any(parts) => exists i :: 0 <= i < |parts| && Holds(parts[i], env)
  }

  predicate Combined(vs: seq<bool>, op: Operation) {
    if op == And then forall i :: 0 <= i < |vs| ==> vs[i] else exists i :: 0 <= i < |vs| && vs[i]
  }

  /** The values of the children that say something. */
  function Values(subs: seq<Sub>, env: string -> bool): seq<bool> {
    if subs == [] then []
    else Values(subs[..|subs| - 1], env) + ValuesOf(subs[|subs| - 1], env)
  }

  function ValuesOf(sub: Sub, env: string -> bool): seq<bool> {
    match sub
    case Nested(q) => if Silent(q) then [] else [Value(q, env)]
    case Leaf(conditions) => seq(|conditions|, i requires 0 <= i < |conditions| => env(conditions[i]))
  }

  /** The AND/OR tree itself: its children combined by its operation. */
  predicate Value(q: Query, env: string -> bool) {
    Combined(Values(q.subs, env), q.op)
  }

  /** A query without any condition in it. */
  predicate Silent(q: Query) {
    forall i :: 0 <= i < |q.subs| ==> SilentSub(q.subs[i])
  }

  predicate SilentSub(sub: Sub) {
    match sub
    case Nested(q) => Silent(q)
    case Leaf(conditions) => conditions == []
  }

  // ----- the builder builds the tree's meaning

  ghost predicate SameValues(parts: seq<Ex>, vs: seq<bool>, env: string -> bool) {
    |parts| == |vs| && forall i :: 0 <= i < |parts| ==> Holds(parts[i], env) == vs[i]
  }

  ghost predicate PartsSpeak(sub: Sub, env: string -> bool) {
    SameValues(PartsOf(sub), ValuesOf(sub, env), env) && (PartsOf(sub) == [] <==> SilentSub(sub))
  }

  lemma {:induction false} PartsMean(subs: seq<Sub>, env: string -> bool)
    requires forall i :: 0 <= i < |subs| ==> PartsSpeak(subs[i], env)
    ensures SameValues(Parts(subs), Values(subs, env), env)
    ensures Parts(subs) == [] <==> AllSilent(subs)
    decreases |subs|
  {
    hide PartsOf, ValuesOf, SameValues, SilentSub, AllSilent;
    EmptySame(env);
    AllSilentLast(subs);
    if subs != [] {
      var init, sub := subs[..|subs| - 1], subs[|subs| - 1];
      assert forall i :: 0 <= i < |init| ==> subs[i] == init[i];
      PartsMean(init, env);
      assert PartsSpeak(sub, env);
      SameValuesConcat(Parts(init), PartsOf(sub), Values(init, env), ValuesOf(sub, env), env);
    }
  }

  ghost predicate AllSilent(subs: seq<Sub>) {
    forall i :: 0 <= i < |subs| ==> SilentSub(subs[i])
  }

  lemma AllSilentLast(subs: seq<Sub>)
    ensures AllSilent(subs) <==> subs == [] || (AllSilent(subs[..|subs| - 1]) && SilentSub(subs[|subs| - 1]))
  {
    hide SilentSub;
    if subs != [] {
      var init := subs[..|subs| - 1];
      assert forall i :: 0 <= i < |init| ==> init[i] == subs[i];
      assert AllSilent(init) && SilentSub(subs[|subs| - 1]) ==> AllSilent(subs);
    }
  }

  lemma EmptySame(env: string -> bool)
    ensures SameValues([], [], env)
  {
  }

  lemma SameValuesConcat(a: seq<Ex>, b: seq<Ex>, va: seq<bool>, vb: seq<bool>, env: string -> bool)
    requires SameValues(a, va, env) && SameValues(b, vb, env)
    ensures SameValues(a + b, va + vb, env)
  {
  }

  /** Main result: the built expression holds exactly when the tree does; there is none exactly for a silent tree. */
  lemma {:induction false} BuiltMeans(q: Query, env: string -> bool)
    ensures Built(q).None? <==> Silent(q)
    ensures Built(q).Some? ==> (Holds(Built(q).value, env) <==> Value(q, env))
    decreases q
  {
    forall i | 0 <= i < |q.subs|
      ensures PartsSpeak(q.subs[i], env)
    {
      if q.subs[i].Nested? {
        BuiltMeans(q.subs[i].query, env);
      }
    }
    PartsMean(q.subs, env);
  }

  /** Calling a builder twice doubles its conditions without changing the meaning. */
  lemma RepeatedExpressionMeansTheSame(q: Query, env: string -> bool)
    requires !Silent(q)
    ensures var ps := Parts(q.subs);
      ps != [] && (Holds(Combine(ps + ps, q.op).value, env) <==> Holds(Combine(ps, q.op).value, env))
  {
    BuiltMeans(q, env);
    var ps := Parts(q.subs);
    assert forall i :: 0 <= i < |ps| ==> (ps + ps)[i] == ps[i];
    assert forall i :: |ps| <= i < |ps + ps| ==> (ps + ps)[i] == ps[i - |ps|];
  }

  // ----- reading the text back: OR of ANDs of primaries, as in SQL

  datatype Ast = Cond(name: string) | Conj(l: Ast, r: Ast) | Disj(l: Ast, r: Ast)

  datatype Read = Fail | Got(ast: Ast, rest: Text)

  predicate True(a: Ast, env: string -> bool) {
    match a
    case Cond(name) => env(name)
    case Conj(l, r) => True(l, env) && True(r, env)
    case Disj(l, r) => True(l, env) || True(r, env)
  }

  function ReadPrimary(t: Text): (r: Read)
    ensures r.Got? ==> |r.rest| < |t|
    decreases |t|, 0
  {
    if t == [] then Fail
    else if t[0].Atom? then Got(Cond(t[0].name), t[1..])
    else if t[0] != Open then Fail
    else
      var inner := ReadOr(t[1..]);
      if inner.Got? && inner.rest != [] && inner.rest[0] == Close then Got(inner.ast, inner.rest[1..]) else Fail
  }

  function ReadAnd(t: Text): (r: Read)
    ensures r.Got? ==> |r.rest| < |t|
    decreases |t|, 1
  {
    var left := ReadPrimary(t);
    if left.Fail? || left.rest == [] || left.rest[0] != Word(And) then left
    else
      var right := ReadAnd(left.rest[1..]);
      if right.Fail? then Fail else Got(Conj(left.ast, right.ast), right.rest)
  }

  function ReadOr(t: Text): (r: Read)
    ensures r.Got? ==> |r.rest| < |t|
    decreases |t|, 2
  {
    var left := ReadAnd(t);
    if left.Fail? || left.rest == [] || left.rest[0] != Word(Or) then left
    else
      var right := ReadOr(left.rest[1..]);
      if right.Fail? then Fail else Got(Disj(left.ast, right.ast), right.rest)
  }

  /** The whole text is one expression. */
  function Parse(t: Text): Option<Ast> {
    var r := ReadOr(t);
    if r.Got? && r.rest == [] then Some(r.ast) else None
  }

  // ----- printed trees are read back

  predicate NoneEmpty(ws: seq<Text>) {
    forall i :: 0 <= i < |ws| ==> ws[i] != []
  }

  /** How many conditions and nested queries a list of children comes to. */
  function Pieces(subs: seq<Sub>): nat {
    if subs == [] then 0 else Pieces(subs[..|subs| - 1]) + PiecesOf(subs[|subs| - 1])
  }

  function PiecesOf(sub: Sub): nat {
    match sub
    case Nested(q) => 1
    case Leaf(conditions) => |conditions|
  }

  /** No query without conditions is nested beside something else, at any depth. */
  predicate Printable(q: Query) {
    forall i :: 0 <= i < |q.subs| && q.subs[i].Nested? ==>
      Printable(q.subs[i].query) && (Pieces(q.subs) > 1 ==> !Silent(q.subs[i].query))
  }

  lemma {:induction false} PiecesAreWheres(subs: seq<Sub>)
    ensures |Wheres(subs)| == Pieces(subs)
    decreases |subs|
  {
    if subs != [] {
      PiecesAreWheres(subs[..|subs| - 1]);
    }
  }

  lemma {:induction false} WheresNoneEmpty(subs: seq<Sub>)
    requires forall i :: 0 <= i < |subs| && subs[i].Nested? ==> Print(subs[i].query) != []
    ensures NoneEmpty(Wheres(subs))
    decreases |subs|
  {
    hide Print;
    if subs != [] {
      var init, sub := subs[..|subs| - 1], subs[|subs| - 1];
      WheresNoneEmpty(init);
      assert forall i :: 0 <= i < |WheresOf(sub)| ==> WheresOf(sub)[i] != [];
    }
  }

  /** Before the end or a closing parenthesis, the text reads as this expression. */
  ghost predicate Reads(t: Text, a: Ast) {
    forall rest: Text :: rest == [] || rest[0] == Close ==> ReadOr(t + rest) == Got(a, rest)
  }

  ghost predicate AllRead(ws: seq<Text>, asts: seq<Ast>) {
    |ws| == |asts| && forall i :: 0 <= i < |ws| ==> Reads(ws[i], asts[i])
  }

  /** The texts in parentheses with the operation between them, read left to right. */
  function Grouped(ws: seq<Text>, op: Operation): Text {
    if ws == [] then []
    else if |ws| == 1 then [Open] + ws[0] + [Close]
    else [Open] + ws[0] + [Close, Word(op)] + Grouped(ws[1..], op)
  }

  /** Joining from the left and grouping from the right print the same. */
  lemma {:induction false} GroupedIsJoined(ws: seq<Text>, op: Operation)
    requires ws != []
    ensures Grouped(ws, op) == [Open] + Join(ws, op) + [Close]
    decreases |ws|
  {
    if |ws| > 1 {
      GroupedIsJoined(ws[1..], op);
      JoinHead(ws, op);
      var j := Join(ws[1..], op);
      assert [Open] + ws[0] + [Close, Word(op)] + ([Open] + j + [Close])
        == [Open] + (ws[0] + [Close, Word(op), Open] + j) + [Close];
    }
  }

  lemma {:induction false} JoinHead(ws: seq<Text>, op: Operation)
    requires |ws| > 1
    ensures Join(ws, op) == ws[0] + [Close, Word(op), Open] + Join(ws[1..], op)
    decreases |ws|
  {
    if |ws| > 2 {
      var init := ws[..|ws| - 1];
      JoinHead(init, op);
      assert init[1..] == ws[1..][..|ws| - 2];
    } else {
      assert ws[..1] == [ws[0]] && ws[1..] == [ws[1]];
    }
  }

  lemma PrimaryGroup(w: Text, a: Ast, rest: Text)
    requires Reads(w, a)
    ensures ReadPrimary([Open] + w + [Close] + rest) == Got(a, rest)
  {
    var t := [Open] + w + [Close] + rest;
    assert t[1..] == w + ([Close] + rest);
    assert ([Close] + rest)[1..] == rest;
  }

  function ConjAll(asts: seq<Ast>): Ast
    requires asts != []
  {
    if |asts| == 1 then asts[0] else Conj(asts[0], ConjAll(asts[1..]))
  }

  function DisjAll(asts: seq<Ast>): Ast
    requires asts != []
  {
    if |asts| == 1 then asts[0] else Disj(asts[0], DisjAll(asts[1..]))
  }

  lemma {:induction false} ReadConjunction(ws: seq<Text>, asts: seq<Ast>, rest: Text)
    requires ws != [] && AllRead(ws, asts) && (rest == [] || rest[0] == Close)
    ensures ReadAnd(Grouped(ws, And) + rest) == Got(ConjAll(asts), rest)
    decreases |ws|
  {
    hide ReadPrimary, Reads;
    if |ws| == 1 {
      PrimaryGroup(ws[0], asts[0], rest);
    } else {
      var more := Grouped(ws[1..], And) + rest;
      var t := Grouped(ws, And) + rest;
      assert t == [Open] + ws[0] + [Close] + ([Word(And)] + more);
      PrimaryGroup(ws[0], asts[0], [Word(And)] + more);
      assert ([Word(And)] + more)[1..] == more;
      ReadConjunction(ws[1..], asts[1..], rest);
    }
  }

  lemma {:induction false} ReadDisjunction(ws: seq<Text>, asts: seq<Ast>, rest: Text)
    requires ws != [] && AllRead(ws, asts) && (rest == [] || rest[0] == Close)
    ensures ReadOr(Grouped(ws, Or) + rest) == Got(DisjAll(asts), rest)
    decreases |ws|
  {
    hide ReadPrimary, Reads;
    if |ws| == 1 {
      PrimaryGroup(ws[0], asts[0], rest);
    } else {
      var more := Grouped(ws[1..], Or) + rest;
      var t := Grouped(ws, Or) + rest;
      assert t == [Open] + ws[0] + [Close] + ([Word(Or)] + more);
      PrimaryGroup(ws[0], asts[0], [Word(Or)] + more);
      assert ([Word(Or)] + more)[1..] == more;
      ReadDisjunction(ws[1..], asts[1..], rest);
    }
  }

  function CombineAsts(asts: seq<Ast>, op: Operation): Ast
    requires asts != []
  {
    if op == And then ConjAll(asts) else DisjAll(asts)
  }

  /** Reading an assembled text combines what its parts read as. */
  lemma ReadAssembled(ws: seq<Text>, asts: seq<Ast>, op: Operation)
    requires ws != [] && AllRead(ws, asts)
    ensures Reads(Assemble(ws, op), CombineAsts(asts, op))
  {
    if |ws| > 1 {
      GroupedIsJoined(ws, op);
      forall rest: Text | rest == [] || rest[0] == Close
        ensures ReadOr(Assemble(ws, op) + rest) == Got(CombineAsts(asts, op), rest)
      {
        if op == And {
          ReadConjunction(ws, asts, rest);
        } else {
          ReadDisjunction(ws, asts, rest);
        }
      }
    }
  }

  lemma {:induction false} CombinedTruth(asts: seq<Ast>, vs: seq<bool>, op: Operation, env: string -> bool)
    requires asts != [] && TruthsAre(asts, vs, env)
    ensures True(CombineAsts(asts, op), env) <==> Combined(vs, op)
    decreases |asts|
  {
    if |asts| > 1 {
      CombinedTruth(asts[1..], vs[1..], op, env);
      assert vs == [vs[0]] + vs[1..];
      assert forall i :: 0 < i < |vs| ==> vs[i] == vs[1..][i - 1];
    }
  }

  ghost predicate TruthsAre(asts: seq<Ast>, vs: seq<bool>, env: string -> bool) {
    |asts| == |vs| && forall i :: 0 <= i < |vs| ==> True(asts[i], env) == vs[i]
  }

  lemma AtomReads(name: string)
    ensures Reads([Atom(name)], Cond(name))
  {
    forall rest: Text | rest == [] || rest[0] == Close
      ensures ReadOr([Atom(name)] + rest) == Got(Cond(name), rest)
    {
      var t := [Atom(name)] + rest;
      assert t[0] == Atom(name) && t[1..] == rest;
      assert ReadPrimary(t) == Got(Cond(name), rest);
      assert ReadAnd(t) == Got(Cond(name), rest);
    }
  }

  ghost predicate AllEmpty(ws: seq<Text>) {
    forall i :: 0 <= i < |ws| ==> ws[i] == []
  }

  lemma {:induction false} WheresEmptyIffSilent(subs: seq<Sub>)
    requires forall i :: 0 <= i < |subs| ==> (AllEmpty(WheresOf(subs[i])) <==> SilentSub(subs[i]))
    ensures AllEmpty(Wheres(subs)) <==> forall i :: 0 <= i < |subs| ==> SilentSub(subs[i])
    decreases |subs|
  {
    if subs != [] {
      var init, sub := subs[..|subs| - 1], subs[|subs| - 1];
      WheresEmptyIffSilent(init);
      assert subs == init + [sub];
      AllEmptyConcat(Wheres(init), WheresOf(sub));
    }
  }

  lemma AllEmptyConcat(a: seq<Text>, b: seq<Text>)
    ensures AllEmpty(a + b) <==> AllEmpty(a) && AllEmpty(b)
  {
    assert forall i :: 0 <= i < |a| ==> (a + b)[i] == a[i];
    assert forall i :: 0 <= i < |b| ==> (a + b)[|a| + i] == b[i];
  }

  /** A printable tree prints nothing exactly when it is silent. */
  lemma {:induction false} PrintsNothingIffSilent(q: Query)
    requires Printable(q)
    ensures Print(q) == [] <==> Silent(q)
    decreases q
  {
    forall i | 0 <= i < |q.subs|
      ensures AllEmpty(WheresOf(q.subs[i])) <==> SilentSub(q.subs[i])
    {
      match q.subs[i]
      case Nested(sub) =>
        PrintsNothingIffSilent(sub);
        assert WheresOf(q.subs[i])[0] == Print(sub);
      case Leaf(conditions) =>
        if conditions != [] {
          assert WheresOf(q.subs[i])[0] == [Atom(conditions[0])];
        }
    }
    WheresEmptyIffSilent(q.subs);
    PiecesAreWheres(q.subs);
    var ws := Wheres(q.subs);
    if |ws| > 1 {
      PiecesSpeak(q);
    }
  }

  lemma {:induction false} FewPieces(subs: seq<Sub>)
    requires forall i :: 0 <= i < |subs| ==> subs[i].Leaf? && subs[i].conditions == []
    ensures Pieces(subs) == 0
    decreases |subs|
  {
    if subs != [] {
      FewPieces(subs[..|subs| - 1]);
    }
  }

  /** Several pieces, none of them silent, say something. */
  lemma PiecesSpeak(q: Query)
    requires Printable(q) && Pieces(q.subs) > 1
    ensures !Silent(q)
  {
    if Silent(q) {
      assert forall i :: 0 <= i < |q.subs| ==> SilentSub(q.subs[i]);
      FewPieces(q.subs);
    }
  }

  // ----- reading what is printed

  /** What each child contributes reads as expressions with the values of the child. */
  ghost predicate ChildReads(sub: Sub, asts: seq<Ast>) {
    AllRead(WheresOf(sub), asts) && forall env :: TruthsAre(asts, ValuesOf(sub, env), env)
  }

  ghost predicate ListReads(subs: seq<Sub>, asts: seq<Ast>) {
    AllRead(Wheres(subs), asts) && forall env :: TruthsAre(asts, Values(subs, env), env)
  }

  lemma AllReadConcat(v: seq<Text>, w: seq<Text>, a: seq<Ast>, b: seq<Ast>)
    requires AllRead(v, a) && AllRead(w, b)
    ensures AllRead(v + w, a + b)
  {
    hide Reads;
  }

  lemma TruthsConcat(a: seq<Ast>, b: seq<Ast>, va: seq<bool>, vb: seq<bool>, env: string -> bool)
    requires TruthsAre(a, va, env) && TruthsAre(b, vb, env)
    ensures TruthsAre(a + b, va + vb, env)
  {
  }

  lemma ConcatReads(init: seq<Sub>, sub: Sub, a: seq<Ast>, b: seq<Ast>)
    requires ListReads(init, a) && ChildReads(sub, b)
    ensures ListReads(init + [sub], a + b)
  {
    var subs := init + [sub];
    assert subs[..|subs| - 1] == init;
    AllReadConcat(Wheres(init), WheresOf(sub), a, b);
    forall env
      ensures TruthsAre(a + b, Values(subs, env), env)
    {
      TruthsConcat(a, b, Values(init, env), ValuesOf(sub, env), env);
    }
  }

  lemma LeafReads(conditions: seq<string>) returns (asts: seq<Ast>)
    ensures ChildReads(Leaf(conditions), asts)
  {
    asts := seq(|conditions|, i requires 0 <= i < |conditions| => Cond(conditions[i]));
    forall i | 0 <= i < |conditions|
      ensures Reads(WheresOf(Leaf(conditions))[i], asts[i])
    {
      AtomReads(conditions[i]);
    }
  }

  lemma NoneEmptyPrefix(a: seq<Text>, b: seq<Text>)
    requires NoneEmpty(a + b)
    ensures NoneEmpty(a) && NoneEmpty(b)
  {
    assert forall i :: 0 <= i < |a| ==> (a + b)[i] == a[i];
    assert forall i :: 0 <= i < |b| ==> (a + b)[|a| + i] == b[i];
  }

  lemma NoneEmptyWheres(q: Query)
    requires Printable(q) && Print(q) != []
    ensures Wheres(q.subs) != [] && NoneEmpty(Wheres(q.subs))
  {
    PiecesAreWheres(q.subs);
    if Pieces(q.subs) > 1 {
      forall i | 0 <= i < |q.subs| && q.subs[i].Nested?
        ensures Print(q.subs[i].query) != []
      {
        PrintsNothingIffSilent(q.subs[i].query);
      }
      WheresNoneEmpty(q.subs);
    }
  }

  /** Every query that says something reads, as printed, as an expression with the value of the tree. */
  lemma {:induction false} PrintedReads(q: Query) returns (a: Ast)
    requires Printable(q) && !Silent(q)
    ensures Reads(Print(q), a)
    ensures forall env :: True(a, env) <==> Value(q, env)
    decreases q, |q.subs| + 1
  {
    PrintsNothingIffSilent(q);
    var ws := Wheres(q.subs);
    assert q.subs[..|q.subs|] == q.subs;
    NoneEmptyWheres(q);
    var asts := ChildrenRead(q, |q.subs|);
    a := CombineAsts(asts, q.op);
    ReadAssembled(ws, asts, q.op);
    forall env
      ensures True(a, env) <==> Value(q, env)
    {
      CombinedTruth(asts, Values(q.subs, env), q.op, env);
    }
  }

  lemma {:induction false} ChildrenRead(q: Query, n: nat) returns (asts: seq<Ast>)
    requires Printable(q) && n <= |q.subs| && NoneEmpty(Wheres(q.subs[..n]))
    ensures ListReads(q.subs[..n], asts)
    decreases q, n
  {
    if n == 0 {
      asts := [];
    } else {
      var init, sub := q.subs[..n - 1], q.subs[n - 1];
      assert q.subs[..n] == init + [sub] && q.subs[..n][..n - 1] == init;
      NoneEmptyPrefix(Wheres(init), WheresOf(sub));
      var before := ChildrenRead(q, n - 1);
      var own := ChildRead(q, n - 1);
      ConcatReads(init, sub, before, own);
      asts := before + own;
    }
  }

  lemma {:induction false} ChildRead(q: Query, i: nat) returns (asts: seq<Ast>)
    requires Printable(q) && i < |q.subs| && NoneEmpty(WheresOf(q.subs[i]))
    ensures ChildReads(q.subs[i], asts)
    decreases q, i
  {
    match q.subs[i]
    case Nested(query) =>
      assert WheresOf(q.subs[i])[0] == Print(query);
      PrintsNothingIffSilent(query);
      var a := PrintedReads(query);
      asts := [a];
    case Leaf(conditions) =>
      asts := LeafReads(conditions);
  }

  /**
    Main result: the printed text of a printable tree that says something is one SQL
    expression, and it means what the tree and the built expression mean.
   */
  lemma TextAndExpressionAgree(q: Query)
    requires Printable(q) && !Silent(q)
    ensures Parse(Print(q)).Some? && Built(q).Some?
    ensures forall env :: True(Parse(Print(q)).value, env) <==> Value(q, env)
    ensures forall env :: Holds(Built(q).value, env) <==> Value(q, env)
  {
    var a := PrintedReads(q);
    assert Print(q) + [] == Print(q);
    assert ReadOr(Print(q) + []) == Got(a, []);
    forall env
      ensures Built(q).Some? && (Holds(Built(q).value, env) <==> Value(q, env))
    {
      BuiltMeans(q, env);
    }
    BuiltMeans(q, (name) => true);
  }

  // ----- and only printable trees are

  /** An opening parenthesis directly before a closing one. */
  ghost predicate GapAt(t: Text, i: int) {
    0 <= i && i + 1 < |t| && t[i] == Open && t[i + 1] == Close
  }

  ghost predicate HasGap(t: Text) {
    exists i :: GapAt(t, i)
  }

  /** The shape of what a reader takes: it starts and ends like an expression and has no gap. */
  ghost predicate Shaped(c: Text) {
    c != [] && (c[0].Atom? || c[0] == Open) && (c[|c| - 1].Atom? || c[|c| - 1] == Close) && !HasGap(c)
  }

  /** What a successful read took off the front. */
  ghost predicate Took(t: Text, rest: Text) {
    |rest| < |t| && t == t[..|t| - |rest|] + rest && Shaped(t[..|t| - |rest|])
  }

  lemma ShapedGroup(c: Text)
    requires Shaped(c)
    ensures Shaped([Open] + c + [Close])
  {
    var g := [Open] + c + [Close];
    forall i
      ensures !GapAt(g, i)
    {
      assert !GapAt(c, i - 1);
    }
  }

  lemma ShapedPair(a: Text, op: Operation, b: Text)
    requires Shaped(a) && Shaped(b)
    ensures Shaped(a + [Word(op)] + b)
  {
    var p := a + [Word(op)] + b;
    forall i
      ensures !GapAt(p, i)
    {
      assert !GapAt(a, i) && !GapAt(b, i - |a| - 1);
    }
  }

  lemma TookIs(t: Text, c: Text, rest: Text)
    requires t == c + rest && Shaped(c)
    ensures Took(t, rest)
  {
    assert t[..|t| - |rest|] == c;
  }

  lemma AtomTook(t: Text)
    requires t != [] && t[0].Atom?
    ensures Took(t, t[1..])
  {
    assert t == [t[0]] + t[1..];
    assert forall i :: !GapAt([t[0]], i);
    TookIs(t, [t[0]], t[1..]);
  }

  lemma GroupTook(t: Text, mid: Text)
    requires t != [] && t[0] == Open && Took(t[1..], mid) && mid != [] && mid[0] == Close
    ensures Took(t, mid[1..])
  {
    hide Shaped;
    var c := t[1..][..|t| - 1 - |mid|];
    ShapedGroup(c);
    assert mid == [Close] + mid[1..];
    assert t == [Open] + (c + mid);
    assert t == ([Open] + c + [Close]) + mid[1..];
    TookIs(t, [Open] + c + [Close], mid[1..]);
  }

  lemma {:induction false} PrimaryTook(t: Text)
    ensures ReadPrimary(t).Got? ==> Took(t, ReadPrimary(t).rest)
    decreases |t|, 0
  {
    hide Took, ReadOr;
    if ReadPrimary(t).Got? {
      if t[0].Atom? {
        AtomTook(t);
      } else {
        OrTook(t[1..]);
        GroupTook(t, ReadOr(t[1..]).rest);
      }
    }
  }

  lemma PairTook(t: Text, mid: Text, op: Operation, rest: Text)
    requires Took(t, mid) && mid != [] && mid[0] == Word(op) && Took(mid[1..], rest)
    ensures Took(t, rest)
  {
    var a, b := t[..|t| - |mid|], mid[1..][..|mid| - 1 - |rest|];
    ShapedPair(a, op, b);
    assert mid == [Word(op)] + (b + rest);
    assert t == (a + [Word(op)] + b) + rest;
    TookIs(t, a + [Word(op)] + b, rest);
  }

  lemma {:induction false} AndTook(t: Text)
    ensures ReadAnd(t).Got? ==> Took(t, ReadAnd(t).rest)
    decreases |t|, 1
  {
    hide ReadPrimary, Took;
    PrimaryTook(t);
    var left := ReadPrimary(t);
    if left.Got? && left.rest != [] && left.rest[0] == Word(And) {
      AndTook(left.rest[1..]);
      if ReadAnd(t).Got? {
        PairTook(t, left.rest, And, ReadAnd(t).rest);
      }
    }
  }

  lemma {:induction false} OrTook(t: Text)
    ensures ReadOr(t).Got? ==> Took(t, ReadOr(t).rest)
    decreases |t|, 2
  {
    hide ReadAnd, Took;
    AndTook(t);
    var left := ReadAnd(t);
    if left.Got? && left.rest != [] && left.rest[0] == Word(Or) {
      OrTook(left.rest[1..]);
      if ReadOr(t).Got? {
        PairTook(t, left.rest, Or, ReadOr(t).rest);
      }
    }
  }

  lemma GapIsNotParsed(t: Text)
    requires HasGap(t)
    ensures Parse(t).None?
  {
    OrTook(t);
    assert t[..|t|] == t;
  }

  /** Each child's text lies inside the printed text, between parentheses when there are several. */
  ghost predicate Inside(w: Text, t: Text, before: Text, after: Text) {
    t == before + w + after
  }

  lemma {:induction false} JoinHolds(ws: seq<Text>, op: Operation, k: nat) returns (before: Text, after: Text)
    requires k < |ws|
    ensures Inside(ws[k], [Open] + Join(ws, op) + [Close], before, after)
    ensures before != [] && before[|before| - 1] == Open && after != [] && after[0] == Close
    decreases |ws|
  {
    if |ws| == 1 {
      before, after := [Open], [Close];
    } else {
      var init, last := ws[..|ws| - 1], ws[|ws| - 1];
      var j := Join(init, op);
      if k == |ws| - 1 {
        before, after := [Open] + j + [Close, Word(op), Open], [Close];
        assert [Open] + (j + [Close, Word(op), Open] + last) + [Close] == before + last + after;
      } else {
        var b, a := JoinHolds(init, op, k);
        before, after := b, a + [Word(op), Open] + last + [Close];
        assert [Open] + (j + [Close, Word(op), Open] + last) + [Close]
          == ([Open] + j + [Close]) + ([Word(op), Open] + last + [Close]);
        assert (b + ws[k] + a) + ([Word(op), Open] + last + [Close]) == before + ws[k] + after;
      }
    }
  }

  lemma GapInside(w: Text, t: Text, before: Text, after: Text)
    requires Inside(w, t, before, after) && HasGap(w)
    ensures HasGap(t)
  {
    var i :| GapAt(w, i);
    assert GapAt(t, |before| + i);
  }

  lemma NothingInside(t: Text, before: Text, after: Text)
    requires Inside([], t, before, after)
    requires before != [] && before[|before| - 1] == Open && after != [] && after[0] == Close
    ensures HasGap(t)
  {
    assert GapAt(t, |before| - 1);
  }

  lemma {:induction false} ChildTextIsThere(subs: seq<Sub>, i: nat) returns (k: nat)
    requires i < |subs| && subs[i].Nested?
    ensures k < |Wheres(subs)| && Wheres(subs)[k] == Print(subs[i].query)
    decreases |subs|
  {
    if i == |subs| - 1 {
      k := |Wheres(subs[..|subs| - 1])|;
    } else {
      k := ChildTextIsThere(subs[..|subs| - 1], i);
    }
  }

  lemma {:induction false} UnprintableHasGap(q: Query)
    requires !Printable(q)
    ensures HasGap(Print(q))
    decreases q
  {
    var ws := Wheres(q.subs);
    PiecesAreWheres(q.subs);
    var i :| 0 <= i < |q.subs| && q.subs[i].Nested?
      && (!Printable(q.subs[i].query) || (Pieces(q.subs) > 1 && Silent(q.subs[i].query)));
    var child := q.subs[i].query;
    var k := ChildTextIsThere(q.subs, i);
    if !Printable(child) {
      UnprintableHasGap(child);
      if |ws| > 1 {
        var before, after := JoinHolds(ws, q.op, k);
        GapInside(ws[k], Print(q), before, after);
      }
    } else {
      PrintsNothingIffSilent(child);
      var before, after := JoinHolds(ws, q.op, k);
      NothingInside(Print(q), before, after);
    }
  }

  /** Main result: a printed text is empty or one SQL expression exactly when the tree is printable. */
  lemma PrintedTextIsSqlIffPrintable(q: Query)
    ensures Printable(q) <==> Print(q) == [] || Parse(Print(q)).Some?
  {
    if Printable(q) {
      PrintsNothingIffSilent(q);
      if !Silent(q) {
        TextAndExpressionAgree(q);
      }
    } else {
      UnprintableHasGap(q);
      GapIsNotParsed(Print(q));
    }
  }

  lemma EmptyQuery()
    ensures Built(Query(And, [])) == None && Print(Query(And, [])) == []
  {
  }

  lemma BuiltOf(q: Query)
    ensures Built(q) == Combine(Parts(q.subs), q.op)
  {
  }

  lemma TwoSubs(a: Sub, b: Sub)
    ensures Wheres([a, b]) == WheresOf(a) + WheresOf(b) && Parts([a, b]) == PartsOf(a) + PartsOf(b)
  {
    hide WheresOf, PartsOf;
    assert [a, b][..1] == [a] && [a][..0] == [];
    assert Wheres([a]) == WheresOf(a) && Parts([a]) == PartsOf(a);
  }

  lemma OneSub(a: Sub)
    ensures Wheres([a]) == WheresOf(a)
  {
    hide WheresOf;
    assert [a][..0] == [];
  }

  lemma {:induction false} JoinTwo(v: Text, w: Text, op: Operation)
    ensures Assemble([v, w], op) == [Open] + v + [Close, Word(op), Open] + w + [Close]
  {
    assert [v, w][..1] == [v];
    assert Join([v], op) == v;
    var joined := Join([v, w], op);
    assert joined == v + [Close, Word(op), Open] + w;
    assert Assemble([v, w], op) == [Open] + joined + [Close];
  }

  /** The exact text: one child stands without parentheses, several each in their own with the operation between. */
  lemma {:induction false} PrintedForm(op: Operation, q: Query, a: string, b: string)
    ensures Print(Query(op, [])) == []
    ensures Print(Query(op, [Leaf([a])])) == [Atom(a)]
    ensures Print(Query(op, [Nested(q)])) == Print(q)
    ensures Print(Query(op, [Leaf([a, b])])) == [Open, Atom(a), Close, Word(op), Open, Atom(b), Close]
    ensures Print(Query(op, [Leaf([a]), Nested(q)])) == [Open, Atom(a), Close, Word(op), Open] + Print(q) + [Close]
  {
    OneSub(Leaf([a]));
    OneSub(Nested(q));
    OneSub(Leaf([a, b]));
    TwoSubs(Leaf([a]), Nested(q));
    assert WheresOf(Leaf([a])) == [[Atom(a)]] && WheresOf(Leaf([a, b])) == [[Atom(a)], [Atom(b)]];
    JoinTwo([Atom(a)], [Atom(b)], op);
    JoinTwo([Atom(a)], Print(q), op);
    assert [[Atom(a)]] + [Print(q)] == [[Atom(a)], Print(q)];
  }

  /** An empty subquery beside a condition: the builder drops it, the printer leaves "()" behind. */
  lemma EmptySubqueryExample()
    ensures var q := Query(And, [Nested(Query(And, [])), Leaf(["a"])]);
      Built(q) == Some(All([Condition("a")])) && Parse(Print(q)).None?
  {
    hide Built, Print, Wheres, Parts, Parse;
    var empty := Query(And, []);
    var q := Query(And, [Nested(empty), Leaf(["a"])]);
    EmptyQuery();
    TwoSubs(Nested(empty), Leaf(["a"]));
    assert PartsOf(Leaf(["a"])) == [Condition("a")] && PartsOf(Nested(empty)) == [];
    BuiltOf(q);
    assert Parts(q.subs) == [Condition("a")];
    assert WheresOf(Nested(empty)) == [[]] && |WheresOf(Leaf(["a"]))| == 1;
    PiecesAreWheres(q.subs);
    assert Pieces(q.subs) == 2 && Silent(empty) && q.subs[0] == Nested(empty);
    UnprintableHasGap(q);
    GapIsNotParsed(Print(q));
  }
}
