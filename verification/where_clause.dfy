/** The parameterised filter builder (`WhereClause`): an ordered list of
    tokens that renders to one `WHERE` text and an ordered list of the values
    bound to its `?` placeholders. */
module WhereClauses {
  import opened Results
  import opened Text
  import opened Values
  import opened Seqs

  /** One entry of a clause. `And`, `Or`, `ParenOpen` and `ParenClose` are the
      shared constant entries; `Literal` is a plain text entry and `Param` a
      text entry carrying the value bound to its placeholder. `pad` is the
      entry's own wish for a leading space. */
  datatype Token =
    | And
    | Or
    | ParenOpen
    | ParenClose
    | Literal(text: string, pad: bool)
    | Param(text: string, value: Value, pad: bool)

  /** The token list of a clause, in insertion order. */
  type Clause = seq<Token>

  predicate IsShared(t: Token)
  {
    t.And? || t.Or? || t.ParenOpen? || t.ParenClose?
  }

  predicate IsParam(t: Token)
  {
    t.Param?
  }

  function TokenText(t: Token): string
  {
    match t
    case And => "AND"
    case Or => "OR"
    case ParenOpen => "("
    case ParenClose => ")"
    case Literal(s, _) => s
    case Param(s, _, _) => s
  }

  predicate WantsPadding(t: Token)
  {
    match t
    case And => true
    case Or => true
    case ParenOpen => false
    case ParenClose => true
    case Literal(_, p) => p
    case Param(_, _, p) => p
  }

  /** Whether `t`, rendered right after `previous`, gets a leading space.
      The open paren overrides the general rule to ignore padding wishes, the
      close paren overrides it to never pad; everything else uses the rule. */
  predicate ShouldLeftPad(t: Token, previous: Token)
  {
    match t
    case ParenOpen => !previous.ParenOpen?
    case ParenClose => false
    case _ => !previous.ParenOpen? && (WantsPadding(t) || WantsPadding(previous))
  }

  /** The padding rule in one formula: a space goes before a token exactly when
      the previous token is not an open paren, the token is not a close paren,
      and either the token is an open paren or one of the two wants padding. */
  lemma PaddingRule(t: Token, previous: Token)
    ensures ShouldLeftPad(t, previous) <==>
              && !previous.ParenOpen?
              && !t.ParenClose?
              && (t.ParenOpen? || WantsPadding(t) || WantsPadding(previous))
  {
  }

  /** The space (or nothing) emitted before token `i`; the first token gets none. */
  function Separator(ts: Clause, i: nat): string
    requires i < |ts|
  {
    if i > 0 && ShouldLeftPad(ts[i], ts[i - 1]) then " " else ""
  }

  /** The rendering of the first `n` tokens, without the `WHERE` prefix. */
  function Body(ts: Clause, n: nat): string
    requires n <= |ts|
  {
    if n == 0 then "" else Body(ts, n - 1) + Separator(ts, n - 1) + TokenText(ts[n - 1])
  }

  /** `getText`: nothing for an empty clause, otherwise " WHERE " and the tokens. */
  function GetText(ts: Clause): (r: string)
    ensures |ts| == 0 <==> r == ""
  {
    if |ts| == 0 then "" else " WHERE " + Body(ts, |ts|)
  }

  /** `isEmpty`: a clause is empty exactly when it renders to nothing; any
      other clause renders as " WHERE " followed by its tokens. */
  function IsEmpty(ts: Clause): (r: bool)
    ensures r <==> GetText(ts) == ""
    ensures r ==> QuestionMarkValues(ts) == []
    ensures !r ==> |GetText(ts)| >= 7 && GetText(ts)[..7] == " WHERE "
  {
    |ts| == 0
  }

  /** `getQuestionMarkValues`: the bound values of the parameterised tokens. */
  function QuestionMarkValues(ts: Clause): (vs: seq<Value>)
    ensures |vs| <= |ts|
  {
    if |ts| == 0 then []
    else QuestionMarkValues(ts[..|ts| - 1]) + (if ts[|ts| - 1].Param? then [ts[|ts| - 1].value] else [])
  }

  // ----- building a clause -----

  /** `add(Entry)`: appends a present entry at the end; a null entry is ignored. */
  function AddEntry(wc: Clause, entry: Option<Token>): (r: Clause)
    ensures |r| == |wc| + (if entry.Some? then 1 else 0)
    ensures r[..|wc|] == wc
    ensures entry.Some? ==> r[|wc|] == entry.value
  {
    if entry.Some? then wc + [entry.value] else wc
  }

  /** `add(String)`: "and"/"or" in any case become the shared connectors, exactly
      "(" and ")" the shared parens, anything else a padded literal. */
  function Add(wc: Clause, text: string): (r: Clause)
    ensures |r| == |wc| + 1 && r[..|wc|] == wc
    ensures r[|wc|] == And <==> EqualsIgnoreCase(text, "AND")
    ensures r[|wc|] == Or <==> EqualsIgnoreCase(text, "OR")
    ensures r[|wc|] == ParenOpen <==> text == "("
    ensures r[|wc|] == ParenClose <==> text == ")"
    ensures !IsShared(r[|wc|]) ==> r[|wc|] == Literal(text, true)
  {
    if EqualsIgnoreCase(text, "AND") then AddEntry(wc, Some(And))
    else if EqualsIgnoreCase(text, "OR") then AddEntry(wc, Some(Or))
    else if text == "(" then AddEntry(wc, Some(ParenOpen))
    else if text == ")" then AddEntry(wc, Some(ParenClose))
    else AddEntry(wc, Some(Literal(text, true)))
  }

  /** `addUnpadded(String)`: always a fresh unpadded literal, even for "and" or "(". */
  function AddUnpadded(wc: Clause, text: string): (r: Clause)
    ensures |r| == |wc| + 1 && r[..|wc|] == wc
    ensures !IsShared(r[|wc|]) && !r[|wc|].Param?
    ensures TokenText(r[|wc|]) == text && !WantsPadding(r[|wc|])
  {
    AddEntry(wc, Some(Literal(text, false)))
  }

  /** `add(String, Object)`: a padded parameterised fragment. */
  function AddParam(wc: Clause, text: string, v: Value): (r: Clause)
    ensures |r| == |wc| + 1 && r[..|wc|] == wc
    ensures TokenText(r[|wc|]) == text && WantsPadding(r[|wc|])
    ensures QuestionMarkValues(r) == QuestionMarkValues(wc) + [v]
  {
    var r := AddEntry(wc, Some(Param(text, v, true)));
    assert r[..|r| - 1] == wc;
    r
  }

  /** `addUnpadded(String, Object)`: an unpadded parameterised fragment. */
  function AddParamUnpadded(wc: Clause, text: string, v: Value): (r: Clause)
    ensures |r| == |wc| + 1 && r[..|wc|] == wc
    ensures TokenText(r[|wc|]) == text && !WantsPadding(r[|wc|])
    ensures QuestionMarkValues(r) == QuestionMarkValues(wc) + [v]
  {
    var r := AddEntry(wc, Some(Param(text, v, false)));
    assert r[..|r| - 1] == wc;
    r
  }

  /** `deNull`: an absent clause stands for the empty one, which renders to
      nothing and binds nothing. */
  function DeNull(wc: Option<Clause>): (r: Clause)
    ensures wc.Some? ==> r == wc.value
    ensures wc.None? ==> GetText(r) == "" && QuestionMarkValues(r) == []
  {
    if wc.Some? then wc.value else []
  }

  // ----- the rendering loop of getText and the collecting loop of getQuestionMarkValues -----

  /** `getText` as the library computes it: one pass remembering the last entry. */
  method RenderText(ts: Clause) returns (text: string)
    ensures text == GetText(ts)
  {
    if |ts| == 0 {
      return "";
    }
    var sb := "";
    var last: Option<Token> := None;
    var i := 0;
    while i < |ts|
      invariant 0 <= i <= |ts|
      invariant sb == Body(ts, i)
      invariant last == if i == 0 then None else Some(ts[i - 1])
    {
      var entry := ts[i];
      if last.Some? && ShouldLeftPad(entry, last.value) {
        sb := sb + " ";
      }
      sb := sb + TokenText(entry);
      last := Some(entry);
      i := i + 1;
    }
    text := " WHERE " + sb;
  }

  /** `getQuestionMarkValues` as the library computes it: one pass over the entries. */
  method CollectQuestionMarkValues(ts: Clause) returns (values: seq<Value>)
    ensures values == QuestionMarkValues(ts)
  {
    values := [];
    var i := 0;
    while i < |ts|
      invariant 0 <= i <= |ts|
      invariant values == QuestionMarkValues(ts[..i])
    {
      assert ts[..i + 1][..i] == ts[..i];
      if ts[i].Param? {
        values := values + [ts[i].value];
      }
      i := i + 1;
    }
    assert ts[..|ts|] == ts;
  }

  // ----- properties of rendering -----

  /** Tokens after position `n` do not change how the first `n` render. */
  lemma {:induction false} BodyPrefix(ts: Clause, more: Clause, n: nat)
    requires n <= |ts|
    ensures Body(ts + more, n) == Body(ts, n)
  {
    if n > 0 {
      BodyPrefix(ts, more, n - 1);
      assert (ts + more)[n - 1] == ts[n - 1];
      assert Separator(ts + more, n - 1) == Separator(ts, n - 1);
    }
  }

  /** Rendering is incremental: appending a token appends its leading space
      (decided by the last token alone) and its text, and changes nothing before. */
  lemma GetTextAppend(ts: Clause, t: Token)
    ensures GetText(ts + [t]) ==
              if |ts| == 0 then " WHERE " + TokenText(t)
              else GetText(ts) + (if ShouldLeftPad(t, ts[|ts| - 1]) then " " else "") + TokenText(t)
  {
    var sep := if |ts| > 0 && ShouldLeftPad(t, ts[|ts| - 1]) then " " else "";
    BodyAppend(ts, t);
    if |ts| == 0 {
      assert Body(ts + [t], 1) == TokenText(t);
    } else {
      AppendTwo(" WHERE ", Body(ts, |ts|), sep, TokenText(t));
    }
  }

  /** The body of a clause with one more token: the old body, the token's
      leading space (none for the first token) and its text. */
  lemma BodyAppend(ts: Clause, t: Token)
    ensures Body(ts + [t], |ts| + 1) ==
              Body(ts, |ts|) + (if |ts| > 0 && ShouldLeftPad(t, ts[|ts| - 1]) then " " else "") + TokenText(t)
  {
    var all := ts + [t];
    BodyPrefix(ts, [t], |ts|);
    assert all[|ts|] == t;
    if |ts| > 0 {
      assert all[|ts| - 1] == ts[|ts| - 1];
    }
  }

  /** Appending a token appends its value exactly when it is parameterised. */
  lemma QuestionMarkValuesAppend(ts: Clause, t: Token)
    ensures QuestionMarkValues(ts + [t]) == QuestionMarkValues(ts) + if t.Param? then [t.value] else []
  {
    assert (ts + [t])[..|ts|] == ts;
  }

  /** The values are those of the parameterised tokens, in token order: value
      `k` is bound by the `k`-th parameterised token. */
  lemma {:induction false} QuestionMarkValuesInTokenOrder(ts: Clause)
    ensures var pos := Positions(ts, IsParam);
            && |QuestionMarkValues(ts)| == |pos|
            && forall k :: 0 <= k < |pos| ==> QuestionMarkValues(ts)[k] == ts[pos[k]].value
  {
    if |ts| > 0 {
      var init := ts[..|ts| - 1];
      var last := ts[|ts| - 1];
      QuestionMarkValuesInTokenOrder(init);
      var pos := Positions(init, IsParam);
      var all := Positions(ts, IsParam);
      assert all == pos + if IsParam(last) then [|ts| - 1] else [];
      assert QuestionMarkValues(ts) == QuestionMarkValues(init) + if last.Param? then [last.value] else [];
      forall k | 0 <= k < |all|
        ensures QuestionMarkValues(ts)[k] == ts[all[k]].value
      {
        if k < |pos| {
          assert all[k] == pos[k];
          assert ts[pos[k]] == init[pos[k]];
        }
      }
    }
  }

  /** One more token of a prefix adds its value exactly when it is parameterised. */
  lemma QuestionMarkValuesStep(ts: Clause, n: nat)
    requires n < |ts|
    ensures QuestionMarkValues(ts[..n + 1]) == QuestionMarkValues(ts[..n]) + if ts[n].Param? then [ts[n].value] else []
  {
    assert ts[..n + 1][..n] == ts[..n];
  }

  /** Each parameterised text holds exactly one `?` and no other text holds any. */
  predicate MarksWellPlaced(ts: Clause)
  {
    forall i :: 0 <= i < |ts| ==> Occurrences(TokenText(ts[i]), '?') == (if ts[i].Param? then 1 else 0)
  }

  /** Appending a token whose text holds one `?` exactly when it is
      parameterised keeps the placeholders well placed. */
  lemma MarksWellPlacedSnoc(ts: Clause, t: Token)
    requires MarksWellPlaced(ts)
    requires Occurrences(TokenText(t), '?') == (if t.Param? then 1 else 0)
    ensures MarksWellPlaced(ts + [t])
  {
    forall i | 0 <= i < |ts| + 1
      ensures Occurrences(TokenText((ts + [t])[i]), '?') == (if (ts + [t])[i].Param? then 1 else 0)
    {
      if i < |ts| {
        assert (ts + [t])[i] == ts[i];
      }
    }
  }

  lemma {:induction false} BodyMarks(ts: Clause, n: nat)
    requires n <= |ts|
    requires MarksWellPlaced(ts)
    ensures Occurrences(Body(ts, n), '?') == |QuestionMarkValues(ts[..n])|
  {
    if n > 0 {
      BodyMarks(ts, n - 1);
      QuestionMarkValuesStep(ts, n - 1);
      var before, sep, text := Body(ts, n - 1), Separator(ts, n - 1), TokenText(ts[n - 1]);
      OccurrencesAppend(before + sep, text, '?');
      OccurrencesAppend(before, sep, '?');
      OccurrencesAbsent(sep, '?');
    }
  }

  /** The rendered text adds only spaces and the prefix to the token texts, so
      when the placeholders sit exactly in the parameterised texts, the number
      of `?` equals the number of bound values. */
  lemma QuestionMarksMatchValues(ts: Clause)
    requires MarksWellPlaced(ts)
    ensures Occurrences(GetText(ts), '?') == |QuestionMarkValues(ts)|
  {
    BodyMarks(ts, |ts|);
    assert ts[..|ts|] == ts;
    if |ts| > 0 {
      OccurrencesAppend(" WHERE ", Body(ts, |ts|), '?');
      OccurrencesAbsent(" WHERE ", '?');
    }
  }

  /** Nothing is ever padded right after the shared open paren, so "(" added
      through `add` hugs whatever follows it. */
  lemma OpenParenHugsNext(wc: Clause, t: Token)
    requires |wc| > 0 && wc[|wc| - 1].ParenOpen?
    ensures GetText(wc + [t]) == GetText(wc) + TokenText(t)
  {
    GetTextAppend(wc, t);
  }

  /** "(" added through `addUnpadded` is a plain unpadded entry, not the
      shared open paren: a padded entry after it still gets its space. */
  lemma UnpaddedParenIsPlainText(wc: Clause, text: string)
    requires |wc| > 0 && wc[|wc| - 1] == Literal("(", false)
    ensures GetText(wc + [Literal(text, true)]) == GetText(wc) + " " + text
  {
    GetTextAppend(wc, Literal(text, true));
  }

  // ----- the library's own example -----

  /** The token list the library's test builds, written out. */
  function TestTokens(): Clause
  {
    [ParenOpen, ParenOpen, Literal("id = oid", true), Or, Param("v != ?", Integer(10), true), ParenClose,
     And, Param("x IN (?", Integer(3), false), Param(",?", Integer(2), false), Param(",?", Integer(1), false),
     ParenClose, ParenClose]
  }

  /** The library's test builds its clause with padded and unpadded adds; the
      strings "(", "or", "and" and ")" become the shared tokens. */
  lemma TestClauseTokens()
    ensures Add(Add(AddParamUnpadded(AddParamUnpadded(AddParamUnpadded(
              Add(Add(AddParam(Add(Add(Add(Add([], "("), "("), "id = oid"), "or"), "v != ?", Integer(10)),
              ")"), "and"), "x IN (?", Integer(3)), ",?", Integer(2)), ",?", Integer(1)), ")"), ")")
            == TestTokens()
  {
    var w1 := Add([], "(");
    var w2 := Add(w1, "(");
    var w3 := Add(w2, "id = oid");
    var w4 := Add(w3, "or");
    assert EqualsIgnoreCase("or", "OR");
    assert !EqualsIgnoreCase("id = oid", "AND") && !EqualsIgnoreCase("id = oid", "OR");
    assert w4 == TestTokens()[..4];
    var w5 := AddParam(w4, "v != ?", Integer(10));
    var w6 := Add(w5, ")");
    var w7 := Add(w6, "and");
    assert EqualsIgnoreCase("and", "AND");
    assert w7 == TestTokens()[..7];
    var w8 := AddParamUnpadded(w7, "x IN (?", Integer(3));
    var w9 := AddParamUnpadded(w8, ",?", Integer(2));
    var w10 := AddParamUnpadded(w9, ",?", Integer(1));
    assert w10 == TestTokens()[..10];
    var w11 := Add(w10, ")");
    var w12 := Add(w11, ")");
    assert w12 == TestTokens();
  }

  /** The first four tokens of the test's clause. */
  lemma TestClauseTextStart(ts: Clause)
    requires ts == TestTokens()
    ensures Body(ts, 4) == "((id = oid OR"
  {
    assert Body(ts, 1) == "(";
    assert Body(ts, 2) == "((";
    assert Body(ts, 3) == "((id = oid";
  }

  /** The first six tokens of the test's clause: the close paren hugs the fragment. */
  lemma TestClauseTextGroup(ts: Clause)
    requires ts == TestTokens()
    ensures Body(ts, 6) == "((id = oid OR v != ?)"
  {
    TestClauseTextStart(ts);
    assert Body(ts, 5) == "((id = oid OR v != ?";
  }

  /** The first seven tokens of the test's clause: the connector is padded. */
  lemma TestClauseTextConnector(ts: Clause)
    requires ts == TestTokens()
    ensures Body(ts, 7) == "((id = oid OR v != ?) AND"
  {
    TestClauseTextGroup(ts);
  }

  /** The first eight tokens of the test's clause. */
  lemma TestClauseTextMiddle(ts: Clause)
    requires ts == TestTokens()
    ensures Body(ts, 8) == "((id = oid OR v != ?) AND x IN (?"
  {
    TestClauseTextConnector(ts);
  }

  /** The first ten tokens of the test's clause: unpadded fragments follow
      each other without spaces. */
  lemma TestClauseTextInList(ts: Clause)
    requires ts == TestTokens()
    ensures Body(ts, 10) == "((id = oid OR v != ?) AND x IN (?,?,?"
  {
    TestClauseTextMiddle(ts);
    assert Body(ts, 9) == "((id = oid OR v != ?) AND x IN (?,?";
  }

  /** The test's clause renders exactly as the test expects: no space after an
      open paren or before a close paren, none before an unpadded fragment. */
  lemma TestClauseText(ts: Clause)
    requires ts == TestTokens()
    ensures GetText(ts) == " WHERE " + "((id = oid OR v != ?) AND x IN (?,?,?))"
  {
    TestClauseTextClosing(ts);
    assert |ts| == 12;
  }

  /** The two closing parens of the test's clause get no leading space. */
  lemma TestClauseTextClosing(ts: Clause)
    requires ts == TestTokens()
    ensures Body(ts, 12) == "((id = oid OR v != ?) AND x IN (?,?,?))"
  {
    TestClauseTextInList(ts);
  }

  /** The first seven tokens of the test's clause bind one value. */
  lemma TestClauseValuesStart(ts: Clause)
    requires ts == TestTokens()
    ensures QuestionMarkValues(ts[..7]) == [Integer(10)]
  {
    QuestionMarkValuesStep(ts, 0);
    QuestionMarkValuesStep(ts, 1);
    QuestionMarkValuesStep(ts, 2);
    QuestionMarkValuesStep(ts, 3);
    QuestionMarkValuesStep(ts, 4);
    QuestionMarkValuesStep(ts, 5);
    QuestionMarkValuesStep(ts, 6);
  }

  /** The test's clause binds its values in token order. */
  lemma TestClauseValues(ts: Clause)
    requires ts == TestTokens()
    ensures QuestionMarkValues(ts) == [Integer(10), Integer(3), Integer(2), Integer(1)]
  {
    TestClauseValuesStart(ts);
    QuestionMarkValuesStep(ts, 7);
    QuestionMarkValuesStep(ts, 8);
    QuestionMarkValuesStep(ts, 9);
    QuestionMarkValuesStep(ts, 10);
    QuestionMarkValuesStep(ts, 11);
    assert ts[..12] == ts;
  }
}
