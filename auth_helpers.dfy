/** The session table and the two helpers that write it: `saveSession`
    (`prisma.session.create`) and `deleteSession`
    (`prisma.session.deleteMany` by token). Rows are kept in insertion order;
    `findUnique` on the token, which the store declares unique, is FindByToken. */
module AuthHelpers {
  import opened Wrappers
  import opened Strings

  /** One session row; `expiresAt` is in milliseconds since the epoch. */
  datatype Session = Session(userId: string, token: string, expiresAt: int)

  /** The lifetime written next to the helpers, as text. */
  const RefreshTokenExpiration: string := "7d"

  /** `parseInt(REFRESH_TOKEN_EXPIRATION) * 24 * 60 * 60 * 1000`:
      `parseInt` reads the leading "7" of "7d", so a session lives seven
      days, in milliseconds. */
  function SessionLifetime(): (ms: nat)
    ensures ms == 604800000
  {
    var days := ParseIntPrefix(RefreshTokenExpiration);
    assert days == Some(7) by {
      assert RefreshTokenExpiration == NatToString(7) + "d";
      ParseIntPrefixRendering(7, "d");
    }
    days.value * 24 * 60 * 60 * 1000
  }

  function Tokens(rows: seq<Session>): set<string> {
    set r | r in rows :: r.token
  }

  predicate UniqueTokens(rows: seq<Session>) {
    forall i, j :: 0 <= i < j < |rows| ==> rows[i].token != rows[j].token
  }

  /** `prisma.session.create({ data: { userId, token, expiresAt } })` at
      `nowMs`: the table with one more row, or None when a row already holds
      the token (the unique constraint on the token column). */
  function Insert(rows: seq<Session>, userId: string, token: string, nowMs: int): (r: Option<seq<Session>>)
    ensures r.None? <==> token in Tokens(rows)
    ensures r.Some? ==> |r.value| == |rows| + 1 && r.value[..|rows|] == rows
    ensures r.Some? ==> r.value[|rows|] == Session(userId, token, nowMs + 604800000)
  {
    if token in Tokens(rows) then None
    else Some(rows + [Session(userId, token, nowMs + SessionLifetime())])
  }

  /** An insert that succeeds keeps the table free of duplicate tokens. */
  lemma InsertKeepsUnique(rows: seq<Session>, userId: string, token: string, nowMs: int)
    requires UniqueTokens(rows) && Insert(rows, userId, token, nowMs).Some?
    ensures UniqueTokens(Insert(rows, userId, token, nowMs).value)
  {
    var r := Insert(rows, userId, token, nowMs).value;
    forall i, j | 0 <= i < j < |r| ensures r[i].token != r[j].token {
      if j == |rows| {
        assert r[i] == rows[i];
        assert rows[i] in rows;
      } else {
        assert r[i] == rows[i] && r[j] == rows[j];
      }
    }
  }

  /** `prisma.session.deleteMany({ where: { token } })`: every row holding
      the token goes, every other row stays, in order. */
  function WithoutToken(rows: seq<Session>, token: string): (r: seq<Session>)
    ensures forall s :: s in r <==> s in rows && s.token != token
    ensures |r| <= |rows|
    decreases |rows|
  {
    if rows == [] then []
    else
      var rest := WithoutToken(rows[1..], token);
      if rows[0].token == token then rest else [rows[0]] + rest
  }

  /** Deleting a token that no row holds changes nothing. */
  lemma {:induction false} WithoutAbsentToken(rows: seq<Session>, token: string)
    requires token !in Tokens(rows)
    ensures WithoutToken(rows, token) == rows
    decreases |rows|
  {
    if rows != [] {
      assert rows[0] in rows;
      assert Tokens(rows[1..]) <= Tokens(rows) by {
        forall t | t in Tokens(rows[1..]) ensures t in Tokens(rows) {
          var s :| s in rows[1..] && s.token == t;
          assert s in rows;
        }
      }
      WithoutAbsentToken(rows[1..], token);
      assert rows == [rows[0]] + rows[1..];
    }
  }

  /** Deleting twice is deleting once. */
  lemma WithoutTokenIdempotent(rows: seq<Session>, token: string)
    ensures WithoutToken(WithoutToken(rows, token), token) == WithoutToken(rows, token)
  {
    var once := WithoutToken(rows, token);
    assert forall s :: s in once ==> s.token != token;
    WithoutAbsentToken(once, token);
  }

  /** Deleting keeps the table free of duplicate tokens. */
  lemma {:induction false} WithoutTokenKeepsUnique(rows: seq<Session>, token: string)
    requires UniqueTokens(rows)
    ensures UniqueTokens(WithoutToken(rows, token))
    decreases |rows|
  {
    if rows != [] {
      var rest := WithoutToken(rows[1..], token);
      WithoutTokenKeepsUnique(rows[1..], token);
      if rows[0].token != token {
        var r := [rows[0]] + rest;
        forall i, j | 0 <= i < j < |r| ensures r[i].token != r[j].token {
          if i == 0 {
            assert r[j] == rest[j - 1] && rest[j - 1] in rest;
            var k :| 0 <= k < |rows[1..]| && rows[1..][k] == r[j];
            assert rows[k + 1] == r[j];
          } else {
            assert r[i] == rest[i - 1] && r[j] == rest[j - 1];
          }
        }
      }
    }
  }

  /** `prisma.session.findUnique({ where: { token } })`: the row holding
      the token, if any. */
  function FindByToken(rows: seq<Session>, token: string): (r: Option<Session>)
    ensures r.Some? ==> r.value in rows && r.value.token == token
    ensures r.None? <==> token !in Tokens(rows)
    decreases |rows|
  {
    if rows == [] then None
    else if rows[0].token == token then Some(rows[0])
    else FindByToken(rows[1..], token)
  }
}
