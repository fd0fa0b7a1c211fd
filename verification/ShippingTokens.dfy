/** What the small steps of the shipping migration amount to, stated without them: the tokens of a field, the
    amount of a rate, and the first-wins assignment of a whole store. */
module ShippingTokens {
  import opened Prelude
  import opened PyText
  import opened ShippingPlan

  // ---- Parsing -----------------------------------------------------------------------------------

  function StripAll(pieces: seq<string>): (r: seq<string>)
    ensures |r| == |pieces| && forall i :: 0 <= i < |r| ==> r[i] == Strip(pieces[i])
  {
    seq(|pieces|, i requires 0 <= i < |pieces| => Strip(pieces[i]))
  }

  lemma {:induction false} StrippedTokensAre(pieces: seq<string>)
    ensures StrippedTokens(pieces) == Filter(NotEmpty(), StripAll(pieces))
  {
    if pieces != [] {
      StrippedTokensAre(pieces[1..]);
      assert StripAll(pieces)[1..] == StripAll(pieces[1..]);
    }
  }

  /** The tokens of a text are its pieces between commas, stripped, in order, without the empty ones. */
  lemma TextTokensExactly(pieces: seq<string>, env: Env)
    requires pieces != [] && forall p :: p in pieces ==> ',' !in p
    ensures ParseGovernorates(JStr(Join(pieces, ",")), env) == Filter(NotEmpty(), StripAll(pieces))
  {
    SplitOfJoin(pieces, ',');
    StrippedTokensAre(pieces);
  }

  /** The piece is the name with blanks around it. */
  ghost predicate Pads(piece: string, name: string) {
    exists left, right :: Blank(left) && Blank(right) && piece == left + name + right
  }

  lemma PadsStrip(piece: string, name: string)
    requires Pads(piece, name) && Trimmed(name)
    ensures Strip(piece) == name
  {
    var left, right :| Blank(left) && Blank(right) && piece == left + name + right;
    StripPadded(left, name, right);
  }

  /** Writing names with commas between them and any blanks around them, and parsing the text, gives the
      names back. */
  lemma TextRoundTrip(names: seq<string>, pieces: seq<string>, env: Env)
    requires names != [] && |pieces| == |names|
    requires forall n :: n in names ==> n != "" && Trimmed(n)
    requires forall p :: p in pieces ==> ',' !in p
    requires forall i :: 0 <= i < |names| ==> Pads(pieces[i], names[i])
    ensures ParseGovernorates(JStr(Join(pieces, ",")), env) == names
  {
    TextTokensExactly(pieces, env);
    forall i | 0 <= i < |names| ensures StripAll(pieces)[i] == names[i] {
      assert names[i] in names;
      PadsStrip(pieces[i], names[i]);
    }
    assert StripAll(pieces) == names;
    FilterAll(NotEmpty(), names);
  }

  /** What Python takes for false. */
  lemma TruthyExactly(j: Json)
    ensures Truthy(j) <==> j !in {JNull, JBool(false), JNum(0.0), JStr(""), JArr([]), JObj(map[])}
  {
  }

  function IsTruthy(): Json -> bool {
    (j: Json) => Truthy(j)
  }

  function StrAll(items: seq<Json>, env: Env): (r: seq<string>)
    ensures |r| == |items|
    ensures forall i :: 0 <= i < |r| ==> r[i] == if items[i].JStr? then items[i].s else env.show(items[i])
  {
    seq(|items|, i requires 0 <= i < |items| => Str(items[i], env))
  }

  /** An array gives its truthy items, as text and in order. */
  lemma ArrayTokensExactly(items: seq<Json>, env: Env)
    ensures ParseGovernorates(JArr(items), env) == StrAll(Filter(IsTruthy(), items), env)
  {
    ListTokensAre(items, env);
  }

  lemma {:induction false} ListTokensAre(items: seq<Json>, env: Env)
    ensures ListTokens(items, env) == StrAll(Filter(IsTruthy(), items), env)
  {
    if items != [] {
      ListTokensAre(items[1..], env);
      if Truthy(items[0]) {
        var rest := Filter(IsTruthy(), items[1..]);
        assert StrAll([items[0]] + rest, env) == [Str(items[0], env)] + StrAll(rest, env);
      }
    }
  }

  /** Anything else, a missing field included, gives none. */
  lemma OtherShapesGiveNone(raw: Json, env: Env)
    requires !raw.JArr? && !raw.JStr?
    ensures ParseGovernorates(raw, env) == []
  {
  }

  // ---- Rates -------------------------------------------------------------------------------------

  /** A rate that is a whole number of piastres is stored as that number, given as a number or as a text. */
  lemma PiastresRoundTrip(n: nat, text: string, env: Env)
    ensures AmountCents(JNum(n as real / 100.0), env) == n
    ensures text != "" && env.parseFloat(text) == Finite(n as real / 100.0) ==> AmountCents(JStr(text), env) == n
  {
    assert n as real / 100.0 * 100.0 == n as real;
  }

  /** Rates below zero, falsy rates and unreadable ones are stored as zero, `true` as one pound. */
  lemma OddRates(rate: Json, env: Env)
    ensures rate.JNum? && rate.r <= 0.0 ==> AmountCents(rate, env) == 0
    ensures rate in {JNull, JBool(false), JStr("")} ==> AmountCents(rate, env) == 0
    ensures rate.JStr? && env.parseFloat(rate.s) == Unreadable ==> AmountCents(rate, env) == 0
    ensures rate.JArr? || rate.JObj? ==> AmountCents(rate, env) == 0
    ensures AmountCents(JBool(true), env) == 100
  {
  }

  // ---- First wins --------------------------------------------------------------------------------

  /** Token `i` is the first to name its code, which was not taken before. */
  predicate IsFirst(tokens: seq<string>, i: nat, taken: set<string>, env: Env)
    requires i < |tokens|
  {
    && env.resolve(tokens[i]).Some? && env.resolve(tokens[i]).value !in taken
    && forall j :: 0 <= j < i ==> env.resolve(tokens[j]) != env.resolve(tokens[i])
  }

  /** The codes of the first tokens, in order, among the first `n`. */
  function FirstCodes(tokens: seq<string>, n: nat, taken: set<string>, env: Env): seq<string>
    requires n <= |tokens|
  {
    if n == 0 then []
    else if IsFirst(tokens, n - 1, taken, env)
    then FirstCodes(tokens, n - 1, taken, env) + [env.resolve(tokens[n - 1]).value]
    else FirstCodes(tokens, n - 1, taken, env)
  }

  /** What the report says of the other tokens, in order: unknown ones as they are, repeated ones tagged. */
  function Leftovers(tokens: seq<string>, n: nat, taken: set<string>, env: Env): seq<string>
    requires n <= |tokens|
  {
    if n == 0 then []
    else
      var earlier, t := Leftovers(tokens, n - 1, taken, env), tokens[n - 1];
      if IsFirst(tokens, n - 1, taken, env) then earlier
      else if env.resolve(t).None? then earlier + [t]
      else earlier + [t + " (duplicate \U{2192} already assigned)"]
  }

  lemma {:induction false} SiftIsFirstWins(tokens: seq<string>, n: nat, taken: set<string>, env: Env)
    requires n <= |tokens|
    ensures Sift(tokens[..n], taken, env).codes == FirstCodes(tokens, n, taken, env)
    ensures Sift(tokens[..n], taken, env).unresolved == Leftovers(tokens, n, taken, env)
  {
    if n > 0 {
      var init, t := tokens[..n - 1], tokens[n - 1];
      assert tokens[..n][..n - 1] == init;
      SiftIsFirstWins(tokens, n - 1, taken, env);
      SiftMeans(init, taken, env);
      if env.resolve(t).Some? {
        var code := env.resolve(t).value;
        if Resolves(init, code, env) {
          var u :| u in init && env.resolve(u) == Some(code);
          var j :| 0 <= j < |init| && init[j] == u;
          assert tokens[j] == u;
        }
        if j :| 0 <= j < n - 1 && env.resolve(tokens[j]) == Some(code) {
          assert init[j] == tokens[j] && tokens[j] in init;
        }
        assert code in Sift(init, taken, env).taken <==> !IsFirst(tokens, n - 1, taken, env);
      }
    }
  }

  lemma {:induction false} SiftConcat(a: seq<string>, b: seq<string>, taken: set<string>, env: Env)
    ensures var s := Sift(a, taken, env);
            var t := Sift(b, s.taken, env);
            Sift(a + b, taken, env) == Sifted(s.codes + t.codes, s.unresolved + t.unresolved, t.taken)
  {
    if b == [] {
      assert a + b == a;
    } else {
      var n := |b| - 1;
      assert (a + b)[..|a + b| - 1] == a + b[..n];
      SiftConcat(a, b[..n], taken, env);
    }
  }

  /** All tokens of a store, zone after zone. */
  function AllTokens(legacy: seq<Fields>, env: Env): seq<string> {
    if legacy == [] then []
    else AllTokens(legacy[..|legacy| - 1], env) + Tokens(legacy[|legacy| - 1], env)
  }

  function CodesOf(rows: seq<GovernorateRow>): (r: seq<string>)
    ensures |r| == |rows| && forall i :: 0 <= i < |r| ==> r[i] == rows[i].code
  {
    seq(|rows|, i requires 0 <= i < |rows| => rows[i].code)
  }

  lemma CodesOfConcat(a: seq<GovernorateRow>, b: seq<GovernorateRow>)
    ensures CodesOf(a + b) == CodesOf(a) + CodesOf(b)
  {
  }

  lemma ZoneSifts(b: Batch, owner: Owner, legacy: Fields, idx: nat, env: Env)
    ensures var s, e := Sift(Tokens(legacy, env), b.taken, env), AddZone(b, owner, legacy, idx, env);
            && CodesOf(e.governorates) == CodesOf(b.governorates) + s.codes
            && e.unresolved == b.unresolved + s.unresolved && e.taken == s.taken
  {
    var codes := Sift(Tokens(legacy, env), b.taken, env).codes;
    var added := NewGovernorates(owner, b.nextId, codes);
    CodesOfConcat(b.governorates, added);
    assert CodesOf(added) == codes;
  }

  lemma {:induction false} MigratedSifts(owner: Owner, legacy: seq<Fields>, firstId: nat, env: Env)
    ensures var b, s := Migrated(owner, legacy, firstId, env), Sift(AllTokens(legacy, env), {}, env);
            CodesOf(b.governorates) == s.codes && b.unresolved == s.unresolved && b.taken == s.taken
  {
    if legacy != [] {
      var n := |legacy| - 1;
      MigratedSifts(owner, legacy[..n], firstId, env);
      SiftConcat(AllTokens(legacy[..n], env), Tokens(legacy[n], env), {}, env);
      ZoneSifts(Migrated(owner, legacy[..n], firstId, env), owner, legacy[n], n, env);
    }
  }

  /** A store's governorate rows are the first-named codes of all its tokens, in order, and its leftovers are
      all the other tokens, in order. */
  lemma StoreIsFirstWins(owner: Owner, legacy: seq<Fields>, firstId: nat, env: Env)
    ensures var b, all := Migrated(owner, legacy, firstId, env), AllTokens(legacy, env);
            && CodesOf(b.governorates) == FirstCodes(all, |all|, {}, env)
            && b.unresolved == Leftovers(all, |all|, {}, env)
  {
    var all := AllTokens(legacy, env);
    MigratedSifts(owner, legacy, firstId, env);
    SiftIsFirstWins(all, |all|, {}, env);
    assert all[..|all|] == all;
  }
}
