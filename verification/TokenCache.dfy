/** The installation token cache (backend/integrations/github_auth.py). Times are in microseconds. */
module TokenCache {
  import opened Text

  datatype Token = Token(token: string, expiresAt: int)

  /** Tokens are refreshed this long before they expire. */
  const REFRESH_MARGIN: int := 300_000_000

  datatype Cache = Cache(tokens: map<int, Token>, exchangeCount: int)

  const EMPTY: Cache := Cache(map[], 0)

  predicate IsFresh(t: Token, now: int)
  {
    t.expiresAt - now > REFRESH_MARGIN
  }

  /** The cache answers without an exchange. */
  predicate Hits(c: Cache, id: int, now: int)
  {
    id in c.tokens && IsFresh(c.tokens[id], now)
  }

  /** The cache after a request; `issued` is what an exchange would bring, nothing if it fails. */
  function Asked(c: Cache, id: int, now: int, issued: Option<Token>): Cache
  {
    if Hits(c, id, now) || issued.None? then c
    else Cache(c.tokens[id := issued.value], c.exchangeCount + 1)
  }

  function Answer(c: Cache, id: int, now: int, issued: Option<Token>): Option<Token>
  {
    if Hits(c, id, now) then Some(c.tokens[id]) else issued
  }

  function Dropped(c: Cache, id: int): Cache
  {
    c.(tokens := c.tokens - {id})
  }

  class InstallationTokenCache {
    var tokens: map<int, Token>
    var exchangeCount: int

    function Now(): Cache
      reads this
    {
      Cache(tokens, exchangeCount)
    }

    constructor ()
      ensures Now() == EMPTY
    {
      tokens, exchangeCount := map[], 0;
    }

    /** `exchange` is how an exchange for this installation would end at this moment; none is made on a hit. */
    method GetToken(installationId: int, now: int, exchange: Option<Token>) returns (token: Option<string>)
      modifies this
      ensures Now() == Asked(old(Now()), installationId, now, exchange)
      ensures token == match Answer(old(Now()), installationId, now, exchange)
                       case None => None
                       case Some(t) => Some(t.token)
    {
      if installationId in tokens && tokens[installationId].expiresAt - now > REFRESH_MARGIN {
        return Some(tokens[installationId].token);
      }
      match exchange {
        case None => return None;
        case Some(issued) =>
          tokens := tokens[installationId := issued];
          exchangeCount := exchangeCount + 1;
          return Some(issued.token);
      }
    }

    method Invalidate(installationId: int)
      modifies this
      ensures Now() == Dropped(old(Now()), installationId)
    {
      tokens := tokens - {installationId};
    }
  }

  // ------------------------------------------------------------------ runs

  /** One call under the lock. */
  datatype Event = Ask(id: int, at: int, issued: Option<Token>) | Drop(id: int, at: int)

  function After(log: seq<Event>): Cache
  {
    if log == [] then EMPTY else
      var c := After(log[..|log| - 1]);
      match log[|log| - 1]
      case Ask(id, at, issued) => Asked(c, id, at, issued)
      case Drop(id, _) => Dropped(c, id)
  }

  /** The clock never runs backwards, and every issued token lives at least `life`. */
  ghost predicate Plausible(log: seq<Event>, life: int)
  {
    && (forall i, j :: 0 <= i < j < |log| ==> log[i].at <= log[j].at)
    && (forall i :: 0 <= i < |log| && log[i].Ask? && log[i].issued.Some? ==>
         log[i].issued.value.expiresAt >= log[i].at + life)
  }

  /** `t` was issued to installation `id` during the run. */
  ghost predicate IssuedTo(log: seq<Event>, id: int, t: Token)
  {
    exists i :: 0 <= i < |log| && log[i].Ask? && log[i].id == id && log[i].issued == Some(t)
  }

  lemma {:induction false} CachedTokensAreOwn(log: seq<Event>, id: int)
    ensures id in After(log).tokens ==> IssuedTo(log, id, After(log).tokens[id])
    decreases |log|
  {
    if log != [] {
      var before := log[..|log| - 1];
      CachedTokensAreOwn(before, id);
      if id in After(before).tokens && id in After(log).tokens && After(before).tokens[id] == After(log).tokens[id] {
        var i :| 0 <= i < |before| && before[i].Ask? && before[i].id == id &&
                 before[i].issued == Some(After(before).tokens[id]);
        assert log[i] == before[i];
      } else if id in After(log).tokens {
        assert log[|log| - 1].Ask? && log[|log| - 1].id == id && log[|log| - 1].issued == Some(After(log).tokens[id]);
      }
    }
  }

  /** Whoever asks gets a token issued to that installation, with more than five minutes left at the time of asking. */
  lemma TokensAreOwnAndFresh(log: seq<Event>, life: int, n: int)
    requires Plausible(log, life) && life > 5 * 60 * 1_000_000 && 0 <= n < |log| && log[n].Ask?
    ensures var e := log[n];
            var answer := Answer(After(log[..n]), e.id, e.at, e.issued);
            answer.Some? ==>
              IssuedTo(log[..n + 1], e.id, answer.value) && answer.value.expiresAt - e.at > 5 * 60 * 1_000_000
  {
    var e, before := log[n], log[..n];
    CachedTokensAreOwn(before, e.id);
    if Hits(After(before), e.id, e.at) {
      var t := After(before).tokens[e.id];
      var i :| 0 <= i < |before| && before[i].Ask? && before[i].id == e.id && before[i].issued == Some(t);
      assert log[..n + 1][i] == before[i];
    } else {
      assert log[..n + 1][n] == e;
    }
  }

  /** Nothing is cached for the installation, or what is has five minutes left or less. */
  predicate IsDue(tokens: map<int, Token>, id: int, at: int)
  {
    id !in tokens || tokens[id].expiresAt - at <= 5 * 60 * 1_000_000
  }

  /** An exchange is made exactly when one is due; it, and nothing else, decides answer, cache and count. */
  lemma ExchangesExactlyWhenDue(log: seq<Event>, n: int)
    requires 0 <= n < |log| && log[n].Ask?
    ensures var e, before, after := log[n], After(log[..n]), After(log[..n + 1]);
            var answer := Answer(before, e.id, e.at, e.issued);
            var renewed := IsDue(before.tokens, e.id, e.at) && e.issued.Some?;
            && answer == (if IsDue(before.tokens, e.id, e.at) then e.issued else Some(before.tokens[e.id]))
            && after.exchangeCount == before.exchangeCount + (if renewed then 1 else 0)
            && after.tokens == if renewed then before.tokens[e.id := e.issued.value] else before.tokens
  {
    assert log[..n + 1][..n] == log[..n];
  }

  /** The last event makes a successful exchange for `id`. */
  predicate Exchanges(log: seq<Event>, id: int)
  {
    log != [] &&
    var e := log[|log| - 1];
    e.Ask? && e.id == id && e.issued.Some? && !Hits(After(log[..|log| - 1]), id, e.at)
  }

  /** Exchanges for `id` in the run. */
  function ExchangesFor(log: seq<Event>, id: int): (n: nat)
  {
    if log == [] then 0 else ExchangesFor(log[..|log| - 1], id) + if Exchanges(log, id) then 1 else 0
  }

  function DropsOf(log: seq<Event>, id: int): (n: nat)
  {
    if log == [] then 0 else DropsOf(log[..|log| - 1], id) + if log[|log| - 1].Drop? && log[|log| - 1].id == id then 1
      else 0
  }

  /** When the last exchange for `id` was made. */
  function LastExchange(log: seq<Event>, id: int): int
    requires ExchangesFor(log, id) > 0
  {
    if Exchanges(log, id) then log[|log| - 1].at else LastExchange(log[..|log| - 1], id)
  }

  lemma PrefixIsPlausible(log: seq<Event>, life: int)
    requires Plausible(log, life) && log != []
    ensures Plausible(log[..|log| - 1], life)
    ensures |log| > 1 ==> log[0].at <= log[|log| - 2].at <= log[|log| - 1].at
  {
  }

  /** The cached token came with the last exchange, unless it was dropped since. */
  lemma {:induction false} CacheIsFromLastExchange(log: seq<Event>, life: int, id: int)
    requires Plausible(log, life)
    ensures id in After(log).tokens ==>
            ExchangesFor(log, id) > 0 && After(log).tokens[id].expiresAt >= LastExchange(log, id) + life
    ensures ExchangesFor(log, id) > 0 && id !in After(log).tokens ==> DropsOf(log, id) > 0
    ensures ExchangesFor(log, id) > 0 ==> log[0].at <= LastExchange(log, id) <= log[|log| - 1].at
    decreases |log|
  {
    if log != [] {
      PrefixIsPlausible(log, life);
      CacheIsFromLastExchange(log[..|log| - 1], life, id);
    }
  }

  lemma NextMultiple(k: int, x: int)
    ensures (k + 1) * x == k * x + x
  {
  }

  lemma {:induction false} ExchangesAreSpaced(log: seq<Event>, life: int, id: int)
    requires Plausible(log, life) && life > REFRESH_MARGIN && ExchangesFor(log, id) > 0
    ensures var drops := DropsOf(log, id) - if id in After(log).tokens then 0 else 1;
            (ExchangesFor(log, id) - 1 - drops) * (life - REFRESH_MARGIN) <= LastExchange(log, id) - log[0].at
    decreases |log|
  {
    var before, gap := log[..|log| - 1], life - REFRESH_MARGIN;
    PrefixIsPlausible(log, life);
    CacheIsFromLastExchange(before, life, id);
    if ExchangesFor(before, id) > 0 {
      ExchangesAreSpaced(before, life, id);
      var k := ExchangesFor(before, id) - 1 - (DropsOf(before, id) - if id in After(before).tokens then 0 else 1);
      NextMultiple(k, gap);
      NextMultiple(k - 1, gap);
    }
  }

  /**
   Over a run from `log[0].at` to the end, with `d` invalidations of an installation, at most
   1 + d + duration / (life - 300 seconds) exchanges are made for it.
   */
  lemma {:induction false} ExchangesAreBounded(log: seq<Event>, life: int, id: int)
    requires Plausible(log, life) && life > 300_000_000 && log != []
    ensures ExchangesFor(log, id) <= 1 + DropsOf(log, id) + (log[|log| - 1].at - log[0].at) / (life - 300_000_000)
  {
    var gap, total := life - REFRESH_MARGIN, log[|log| - 1].at - log[0].at;
    AtMostQuotient(0, gap, total);
    if ExchangesFor(log, id) > 0 {
      ExchangesAreSpaced(log, life, id);
      CacheIsFromLastExchange(log, life, id);
      var drops := DropsOf(log, id) - if id in After(log).tokens then 0 else 1;
      AtMostQuotient(ExchangesFor(log, id) - 1 - drops, gap, total);
    }
  }

  lemma Multiples(a: int, b: int, x: int)
    requires x > 0
    ensures a <= b ==> a * x <= b * x
    ensures (a + 1) * x == a * x + x
  {
  }

  lemma AtMostQuotient(k: int, gap: int, total: int)
    requires gap > 0 && k * gap <= total
    ensures k <= total / gap
  {
    Multiples(total / gap + 1, k, gap);
    Multiples(total / gap, k, gap);
  }
}
