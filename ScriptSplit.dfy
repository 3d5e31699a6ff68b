/**
 * The statement list `executeSQLScript` derives from a script: the script is
 * split on `;`, every piece is trimmed, blank pieces are skipped and the rest
 * are terminated with `;` again.
 */
module ScriptSplit {
  import opened JavaStrings

  /** Every piece of the split, trimmed. */
  function TrimAll(pieces: seq<string>): (ts: seq<string>)
    ensures |ts| == |pieces|
  {
    seq(|pieces|, i requires 0 <= i < |pieces| => Trim(pieces[i]))
  }

  /** The non-blank trimmed pieces, each terminated with `;` again, in order. */
  function Kept(ts: seq<string>): seq<string>
    decreases |ts|
  {
    if ts == [] then []
    else
      var last := ts[|ts| - 1];
      Kept(ts[..|ts| - 1]) + (if last == [] then [] else [last + ";"])
  }

  /** What one piece contributes: nothing if it is blank, else its trim and `;`. */
  function PieceStatement(piece: string): seq<string>
  {
    Kept([Trim(piece)])
  }

  function StatementsOf(pieces: seq<string>): seq<string>
  {
    Kept(TrimAll(pieces))
  }

  /** The statements the script loop submits, in order. */
  function Statements(script: string): seq<string>
  {
    StatementsOf(Split(script, ';'))
  }

  lemma {:induction false} KeptAppend(a: seq<string>, b: seq<string>)
    ensures Kept(a + b) == Kept(a) + Kept(b)
    decreases |b|
  {
    if b == [] {
      assert a + b == a;
    } else {
      var front := b[..|b| - 1];
      assert (a + b)[..|a + b| - 1] == a + front;
      KeptAppend(a, front);
    }
  }

  lemma StatementsOfAppend(a: seq<string>, b: seq<string>)
    ensures StatementsOf(a + b) == StatementsOf(a) + StatementsOf(b)
  {
    assert TrimAll(a + b) == TrimAll(a) + TrimAll(b);
    KeptAppend(TrimAll(a), TrimAll(b));
  }

  lemma StatementsOfCons(x: string, ys: seq<string>)
    ensures StatementsOf([x] + ys) == PieceStatement(x) + StatementsOf(ys)
  {
    assert TrimAll([x] + ys) == [Trim(x)] + TrimAll(ys);
    KeptAppend([Trim(x)], TrimAll(ys));
  }

  /** The statements of the first `i + 1` pieces are those of the first `i`, then piece `i`'s. */
  lemma StatementsOfPrefix(pieces: seq<string>, i: int)
    requires 0 <= i < |pieces|
    ensures StatementsOf(pieces[..i + 1]) == StatementsOf(pieces[..i]) + PieceStatement(pieces[i])
  {
    assert TrimAll(pieces[..i + 1]) == TrimAll(pieces[..i]) + [Trim(pieces[i])];
    KeptAppend(TrimAll(pieces[..i]), [Trim(pieces[i])]);
  }

  /** The statements of all pieces, split around piece `i`. */
  lemma StatementsAround(pieces: seq<string>, i: int)
    requires 0 <= i < |pieces|
    ensures StatementsOf(pieces) == StatementsOf(pieces[..i]) + PieceStatement(pieces[i]) + StatementsOf(pieces[i + 1..])
  {
    StatementsOfPrefix(pieces, i);
    assert pieces == pieces[..i + 1] + pieces[i + 1..];
    StatementsOfAppend(pieces[..i + 1], pieces[i + 1..]);
  }

  lemma PieceStatementNonBlank(piece: string)
    requires Trim(piece) != []
    ensures PieceStatement(piece) == [Trim(piece) + ";"]
  {
    assert Kept([Trim(piece)]) == Kept([]) + [Trim(piece) + ";"];
  }

  lemma {:induction false} KeptEmpties(ts: seq<string>)
    requires forall i :: 0 <= i < |ts| ==> ts[i] == []
    ensures Kept(ts) == []
    decreases |ts|
  {
    if ts != [] {
      KeptEmpties(ts[..|ts| - 1]);
    }
  }

  /**
   * Dropping the trailing empty strings, and the no-match case of `split`, do
   * not change the statements: they are those of all the pieces.
   */
  lemma StatementsOfAllPieces(script: string)
    ensures Statements(script) == StatementsOf(Pieces(script, ';'))
  {
    var ps := Pieces(script, ';');
    if ';' !in script {
      PiecesWithoutSep(script, ';');
    } else {
      var kept := DropTrailingEmpty(ps);
      DropTrailingEmptySpec(ps);
      assert ps == kept + ps[|kept|..];
      KeptEmpties(TrimAll(ps[|kept|..]));
      StatementsOfAppend(kept, ps[|kept|..]);
    }
  }

  /** Statement texts, each followed by its terminator and a blank line, as the generator writes them. */
  function Terminated(bodies: seq<string>): string
  {
    Concat(seq(|bodies|, i requires 0 <= i < |bodies| => bodies[i] + ";\n\n"))
  }

  lemma TerminatedCons(bodies: seq<string>)
    requires bodies != []
    ensures Terminated(bodies) == bodies[0] + ";\n\n" + Terminated(bodies[1..])
  {
    var all := seq(|bodies|, i requires 0 <= i < |bodies| => bodies[i] + ";\n\n");
    var rest := seq(|bodies| - 1, i requires 0 <= i < |bodies| - 1 => bodies[1..][i] + ";\n\n");
    assert all == [bodies[0] + ";\n\n"] + rest;
    ConcatAppend([bodies[0] + ";\n\n"], rest);
    assert Concat([bodies[0] + ";\n\n"]) == bodies[0] + ";\n\n";
  }

  lemma TerminatedAppend(a: seq<string>, b: seq<string>)
    ensures Terminated(a + b) == Terminated(a) + Terminated(b)
  {
    var ta := seq(|a|, i requires 0 <= i < |a| => a[i] + ";\n\n");
    var tb := seq(|b|, i requires 0 <= i < |b| => b[i] + ";\n\n");
    assert seq(|a + b|, i requires 0 <= i < |a + b| => (a + b)[i] + ";\n\n") == ta + tb;
    ConcatAppend(ta, tb);
  }

  /** A statement body the split gives back unchanged: no `;` inside, and not blank. */
  predicate Splittable(body: string)
  {
    ';' !in body && Trim(body) != []
  }

  lemma SplitOff(lead: string, b: string, rest: string)
    requires ';' !in lead && ';' !in b
    ensures Pieces(lead + (b + ";\n\n" + rest), ';') == [lead + b] + Pieces("\n\n" + rest, ';')
  {
    var tail := "\n\n" + rest;
    assert lead + (b + ";\n\n" + rest) == (lead + b) + [';'] + tail;
    PiecesThroughSep(lead + b, ';', tail);
  }

  /** The first statement text, after blank leading characters, splits off as one piece. */
  lemma FirstPiece(lead: string, bodies: seq<string>)
    requires ';' !in lead
    requires bodies != [] && ';' !in bodies[0]
    ensures Pieces(lead + Terminated(bodies), ';')
      == [lead + bodies[0]] + Pieces("\n\n" + Terminated(bodies[1..]), ';')
  {
    TerminatedCons(bodies);
    SplitOff(lead, bodies[0], Terminated(bodies[1..]));
  }

  function TrimmedStatements(bodies: seq<string>): seq<string>
  {
    seq(|bodies|, i requires 0 <= i < |bodies| => Trim(bodies[i]) + ";")
  }

  lemma TrimmedStatementsCons(bodies: seq<string>)
    requires bodies != []
    ensures TrimmedStatements(bodies) == [Trim(bodies[0]) + ";"] + TrimmedStatements(bodies[1..])
  {
    var rest := bodies[1..];
    assert forall i :: 0 <= i < |rest| ==> TrimmedStatements(bodies)[i + 1] == TrimmedStatements(rest)[i];
  }

  /** Only blank text is left after the last terminator: it adds no statement. */
  lemma BlankTail(lead: string)
    requires forall i :: 0 <= i < |lead| ==> IsTrimmed(lead[i])
    requires ';' !in lead
    ensures StatementsOf(Pieces(lead + Terminated([]), ';')) == []
  {
    assert Terminated([]) == [];
    assert lead + Terminated([]) == lead;
    PiecesWithoutSep(lead, ';');
    BlankPiece(lead);
  }

  lemma BlankPiece(lead: string)
    requires forall i :: 0 <= i < |lead| ==> IsTrimmed(lead[i])
    ensures StatementsOf([lead]) == []
  {
    TrimBlank(lead);
    assert TrimAll([lead]) == [[]];
    KeptEmpties([[]]);
  }

  lemma FirstStatement(lead: string, bodies: seq<string>)
    requires forall i :: 0 <= i < |lead| ==> IsTrimmed(lead[i])
    requires ';' !in lead
    requires bodies != [] && Splittable(bodies[0])
    requires StatementsOf(Pieces("\n\n" + Terminated(bodies[1..]), ';')) == TrimmedStatements(bodies[1..])
    ensures StatementsOf(Pieces(lead + Terminated(bodies), ';')) == TrimmedStatements(bodies)
  {
    var b := bodies[0];
    var rest := Pieces("\n\n" + Terminated(bodies[1..]), ';');
    calc {
      StatementsOf(Pieces(lead + Terminated(bodies), ';'));
      { FirstPiece(lead, bodies); }
      StatementsOf([lead + b] + rest);
      { StatementsOfCons(lead + b, rest); }
      PieceStatement(lead + b) + StatementsOf(rest);
      { TrimSkipsBlankPrefix(lead, b); PieceStatementNonBlank(lead + b); }
      [Trim(b) + ";"] + TrimmedStatements(bodies[1..]);
      { TrimmedStatementsCons(bodies); }
      TrimmedStatements(bodies);
    }
  }

  lemma {:induction false} PiecesOfTerminated(lead: string, bodies: seq<string>)
    requires forall i :: 0 <= i < |lead| ==> IsTrimmed(lead[i])
    requires ';' !in lead
    requires forall i :: 0 <= i < |bodies| ==> Splittable(bodies[i])
    ensures StatementsOf(Pieces(lead + Terminated(bodies), ';')) == TrimmedStatements(bodies)
    decreases |bodies|
  {
    if bodies == [] {
      BlankTail(lead);
    } else {
      var rest := bodies[1..];
      assert Splittable(bodies[0]);
      PiecesOfTerminated("\n\n", rest);
      FirstStatement(lead, bodies);
    }
  }

  /**
   * Splitting a script written as terminated statement texts gives back
   * exactly those statements, trimmed and terminated, one per text, in order.
   */
  lemma StatementsOfTerminated(bodies: seq<string>)
    requires forall i :: 0 <= i < |bodies| ==> Splittable(bodies[i])
    ensures Statements(Terminated(bodies)) == TrimmedStatements(bodies)
  {
    StatementsOfAllPieces(Terminated(bodies));
    PiecesOfTerminated("", bodies);
    assert "" + Terminated(bodies) == Terminated(bodies);
  }
}
