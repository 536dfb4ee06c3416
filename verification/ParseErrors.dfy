/** Where `lunr.QueryParser` finds fault with a query. */
module ParseErrors {
  import opened Options
  import opened Queries
  import opened QueryLexing
  import opened QueryParsing

  /** These lexemes are a list of clauses, or with others after them would be. */
  ghost predicate Begins(ctx: Context, ls: seq<Lexeme>) {
    exists more, cs :: AllProper(ctx, cs) && FlatAll(cs) == ls + more
  }

  // ----- How far the lexemes can be read

  /** What was read last: nothing, or a lexeme of this kind. */
  datatype Place = Nothing | Presence | Field | Whole

  function Next(ctx: Context, place: Place, l: Lexeme): Option<Place> {
    match l.kind
    case PresenceLexeme => if place.Presence? || place.Field? || PresenceOf(l.str).None? then None else Some(Presence)
    case FieldLexeme => if place.Field? || l.str !in ctx.allFields then None else Some(Field)
    case TermLexeme => Some(Whole)
    case _ => if place.Whole? && NumberOf(l.str).Some? then Some(Whole) else None
  }

  /** How many lexemes can be read. */
  function Readable(ctx: Context, place: Place, ls: seq<Lexeme>): (n: nat)
    ensures n <= |ls|
    decreases |ls|
  {
    if ls == [] then 0
    else
      var next := Next(ctx, place, ls[0]);
      if next.None? then 0 else 1 + Readable(ctx, next.value, ls[1..])
  }

  /** Where one is then. */
  function Reached(ctx: Context, place: Place, ls: seq<Lexeme>): Place
    decreases |ls|
  {
    if ls == [] then place
    else
      var next := Next(ctx, place, ls[0]);
      if next.None? then place else Reached(ctx, next.value, ls[1..])
  }

  /** The outcome is an error exactly if not all can be read or a clause is left without its
      term, and then it points at the lexeme that cannot be read or at the last one. */
  ghost predicate Faults(ctx: Context, place: Place, ls: seq<Lexeme>, o: Outcome) {
    var n, end := Readable(ctx, place, ls), Reached(ctx, place, ls);
    && (o.Parsed? <==> n == |ls| && (end.Nothing? || end.Whole?))
    && (o.Error? ==> ls != [] && o == At(ls[if n < |ls| then n else |ls| - 1]))
  }

  lemma FaultsOn(ctx: Context, place: Place, ls: seq<Lexeme>, o: Outcome, o': Outcome)
    requires ls != [] && Next(ctx, place, ls[0]).Some? && ls[1..] != []
    requires Faults(ctx, Next(ctx, place, ls[0]).value, ls[1..], o) && o'.Parsed? == o.Parsed? && (o.Error? ==> o' == o)
    ensures Faults(ctx, place, ls, o')
  {
    hide Next;
  }

  lemma {:induction false} ParseFaults(ctx: Context, ls: seq<Lexeme>)
    ensures Faults(ctx, Nothing, ls, Parse(ctx, ls))
    decreases |ls|, 3
  {
    if ls != [] {
      match ls[0].kind
      case PresenceLexeme => PresenceFaults(ctx, ls);
      case FieldLexeme => FieldFaults(ctx, Nothing, ls, EMPTY_DRAFT);
      case TermLexeme => TermFaults(ctx, Nothing, ls, EMPTY_DRAFT);
      case _ =>
    }
  }

  lemma {:induction false} PresenceFaults(ctx: Context, ls: seq<Lexeme>)
    requires ls != [] && ls[0].kind == PresenceLexeme
    ensures Faults(ctx, Nothing, ls, PresenceThen(ctx, ls))
    decreases |ls|, 2
  {
    var presence, rest := PresenceOf(ls[0].str), ls[1..];
    if presence.Some? && rest != [] {
      var d := EMPTY_DRAFT.(presence := presence);
      match rest[0].kind
      case FieldLexeme => FieldFaults(ctx, Presence, rest, d);
      case TermLexeme => TermFaults(ctx, Presence, rest, d);
      case _ =>
      FaultsOn(ctx, Nothing, ls, PresenceThen(ctx, ls), PresenceThen(ctx, ls));
    }
  }

  lemma {:induction false} FieldFaults(ctx: Context, place: Place, ls: seq<Lexeme>, d: Draft)
    requires ls != [] && ls[0].kind == FieldLexeme && !place.Field?
    ensures Faults(ctx, place, ls, FieldThen(ctx, ls, d))
    decreases |ls|, 1
  {
    var rest := ls[1..];
    if ls[0].str in ctx.allFields && rest != [] {
      if rest[0].kind == TermLexeme {
        TermFaults(ctx, Field, rest, d.(fields := Some([ls[0].str])));
      }
      FaultsOn(ctx, place, ls, FieldThen(ctx, ls, d), FieldThen(ctx, ls, d));
    }
  }

  lemma {:induction false} TermFaults(ctx: Context, place: Place, ls: seq<Lexeme>, d: Draft)
    requires ls != [] && ls[0].kind == TermLexeme
    ensures Faults(ctx, place, ls, TermThen(ctx, ls, d))
    decreases |ls|, 0
  {
    MoreFaults(ctx, ls[1..], WithTerm(ctx, d, ls[0].str));
  }

  lemma {:induction false} MoreFaults(ctx: Context, ls: seq<Lexeme>, d: Draft)
    ensures Faults(ctx, Whole, ls, MoreOf(ctx, ls, d))
    decreases |ls|, 4
  {
    if ls != [] && (ls[0].kind == EditDistanceLexeme || ls[0].kind == BoostLexeme) {
      var n := NumberOf(ls[0].str);
      if n.Some? {
        MoreFaults(ctx, ls[1..],
                   if ls[0].kind == EditDistanceLexeme then d.(editDistance := n) else d.(boost := Some(n.value)));
      }
    } else {
      ParseFaults(ctx, ls);
    }
  }

  // ----- What can be read is what begins a list of clauses

  lemma {:induction false} ReadableMore(ctx: Context, place: Place, ls: seq<Lexeme>, more: seq<Lexeme>)
    ensures Readable(ctx, place, ls) < |ls| ==> Readable(ctx, place, ls + more) == Readable(ctx, place, ls)
    ensures Readable(ctx, place, ls) == |ls| ==>
              && Readable(ctx, place, ls + more) == |ls| + Readable(ctx, Reached(ctx, place, ls), more)
              && Reached(ctx, place, ls + more) == Reached(ctx, Reached(ctx, place, ls), more)
    decreases |ls|
  {
    if ls == [] {
      assert ls + more == more;
    } else {
      assert (ls + more)[1..] == ls[1..] + more;
      var next := Next(ctx, place, ls[0]);
      hide Next;
      if next.Some? {
        ReadableMore(ctx, next.value, ls[1..], more);
      }
    }
  }

  lemma BeginsIffReadable(ctx: Context, ls: seq<Lexeme>)
    ensures Begins(ctx, ls) <==> Readable(ctx, Nothing, ls) == |ls|
  {
    if more, cs :| AllProper(ctx, cs) && FlatAll(cs) == ls + more {
      ParsedIffGrammar(ctx, ls + more);
      ParseFaults(ctx, ls + more);
      ReadableMore(ctx, Nothing, ls, more);
    }
    if Readable(ctx, Nothing, ls) == |ls| {
      var more := [Lexeme(TermLexeme, "", 0, 0)];
      ReadableMore(ctx, Nothing, ls, more);
      assert more[1..] == [];
      ParseFaults(ctx, ls + more);
      ParsedIffGrammar(ctx, ls + more);
    }
  }

  /** An error points at the first lexeme with which the lexemes no longer begin a list of
      clauses, or at the last one if they begin such a list and are none. */
  lemma ErrorSpan(ctx: Context, ls: seq<Lexeme>, e: ParseError) returns (i: nat)
    requires Parse(ctx, ls) == Error(e)
    ensures i < |ls| && e.start == ls[i].start && e.end == ls[i].end
    ensures Begins(ctx, ls[..i]) && (Begins(ctx, ls[..i + 1]) ==> i == |ls| - 1)
  {
    ParseFaults(ctx, ls);
    var n := Readable(ctx, Nothing, ls);
    i := if n < |ls| then n else |ls| - 1;
    ReadUpTo(ctx, ls, i);
    BeginsIffReadable(ctx, ls[..i]);
    if n < |ls| {
      ReadUpTo(ctx, ls, i + 1);
      BeginsIffReadable(ctx, ls[..i + 1]);
    }
  }

  lemma ReadUpTo(ctx: Context, ls: seq<Lexeme>, i: nat)
    requires i <= |ls|
    ensures Readable(ctx, Nothing, ls[..i]) == if i <= Readable(ctx, Nothing, ls) then i else Readable(ctx, Nothing, ls)
  {
    assert ls == ls[..i] + ls[i..];
    ReadableMore(ctx, Nothing, ls[..i], ls[i..]);
  }
}
