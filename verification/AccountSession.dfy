/** Account sessions: a unit of work's source, the stamp it came with, and the sources a holder keeps
    across units (executioncontext/session/session.go). */
module AccountSession {
  import opened Wrappers
  import opened Sealing
  import opened AccountLoad
  import opened AccountLoader
  import opened LoaderPairs

  datatype Credentials = Credentials(clientId: string, clientSecret: Plain, credential: Plain)

  /** What an account's source is built with: the identifier and secret of the client the account
      connects through, if any, and its credential. */
  function CredentialsOf(a: Served): (c: Credentials)
    ensures a.Connected() ==> c.credential == a.credential != ""
    ensures a.client.Some? ==> c.clientId == a.client.value.id && c.clientSecret == a.client.value.secret
    ensures a.client.None? ==> c.clientId == "" && c.clientSecret == ""
  {
    match a.client
    case None => Credentials("", "", a.Credential())
    case Some(client) => Credentials(client.id, client.secret, a.Credential())
  }

  /** Whether a kept source built from built and now holding current serves creds: their client is its client, and
      their credential is one of these two. */
  predicate Serves(built: Credentials, current: Plain, creds: Credentials) {
    && built.clientId == creds.clientId && built.clientSecret == creds.clientSecret
    && (built.credential == creds.credential || current == creds.credential)
  }

  /** So a source serves what it was built from, or that with its current credential, and nothing else. */
  lemma ServesExactly(built: Credentials, current: Plain, creds: Credentials)
    ensures Serves(built, current, creds) <==> creds == built || creds == built.(credential := current)
  {
  }

  /** An account a load serves has its source built with the identifier of the client row it names and
      that row's secret opened, and with none when no row of that name opens. */
  lemma LoadedCredentials(cfg: Config, l: LoaderState, rows: seq<Row>, clients: seq<ClientRow>, i: nat)
    requires i < |rows|
    ensures var c := CredentialsOf(Load(cfg, l, rows, clients).active[i]);
            && (forall k | rows[i].clientName != "" && LastOpening(cfg.ring, clients, rows[i].clientName, k) ::
                  && c.clientId == clients[k].id
                  && Some(c.clientSecret) == cfg.ring.Open(clients[k].secret, ClientSecret(rows[i].clientName)))
            && ((forall k | 0 <= k < |clients| :: !OpensAs(cfg.ring, clients[k], rows[i].clientName)) ==>
                  c.clientId == "" && c.clientSecret == "")
  {
    LoadPairs(cfg, l, rows, clients);
    assert PairedByLoad(cfg, clients, Load(cfg, l, rows, clients).active[i]);
    hide Load;
  }

  /** A provider's token source. Its credential changes when the provider rotates it. */
  class Source {
    const clientId: string
    const clientSecret: Plain
    var credential: Plain

    constructor (c: Credentials)
      ensures BuiltWith(c) && credential == c.credential
    {
      clientId, clientSecret, credential := c.clientId, c.clientSecret, c.credential;
    }

    /** Whether the source authenticates through the client of the credentials. */
    predicate BuiltWith(c: Credentials) {
      clientId == c.clientId && clientSecret == c.clientSecret
    }
  }

  datatype Kept = Kept(built: Credentials, source: Source)

  /** The sources a holder keeps, shared by every holder seen through it. */
  class Sources {
    var kept: map<string, Kept>

    /** Every source kept authenticates through the client it was kept under. */
    ghost predicate Valid()
      reads this
    {
      forall a <- kept :: kept[a].source.BuiltWith(kept[a].built)
    }

    constructor ()
      ensures kept == map[] && Valid()
    {
      kept := map[];
    }
  }

  class Session {
    const h: Holder
    const account: string
    var built: Credentials
    var adoption: nat
    var source: Source

    constructor (h: Holder, account: string, built: Credentials, adoption: nat, source: Source)
      ensures this.h == h && this.account == account && this.built == built && this.adoption == adoption
              && this.source == source
    {
      this.h, this.account, this.built, this.adoption, this.source := h, account, built, adoption, source;
    }

    /** One call. refused is the provider's answer, stored and listing what the re-read returned, and
        portBuilds whether a port can be built over the re-read credential. A pair other than the
        refused one gets a second try, and the source, its credentials and its stamp change together or not at all. */
    method Call(loader: Loader, refused: bool, stored: Option<Option<Sealed>>, listing: Option<Listing>,
                portBuilds: bool)
      returns (again: bool)
      requires h.sources.Valid()
      modifies this, loader, h.sources
      ensures h.sources.Valid()
      ensures !refused || stored.None? || listing.None? ==> !again && loader.State() == old(loader.State())
      ensures refused && stored.Some? && listing.Some? ==>
                var (l, a) := Reread(loader.cfg, old(loader.State()), account, stored.value, listing.value);
                var tried := old(built).(credential := old(source.credential));
                && loader.State() == l
                && again == (a.Connected() && portBuilds && CredentialsOf(a) != tried)
                && (again ==> fresh(source) && source.BuiltWith(built) && source.credential == a.credential)
                && (again ==> built == CredentialsOf(a) && adoption == a.adoption)
                && (again && h.hold ==> h.sources.kept == old(h.sources.kept)[account := Kept(built, source)])
                && (!h.hold ==> h.sources.kept == old(h.sources.kept))
      ensures !again
              ==> built == old(built) && adoption == old(adoption) && source == old(source)
                  && h.sources.kept == old(h.sources.kept)
    {
      if !refused {
        return false;
      }
      var reread := loader.RereadAccountRow(account, stored, listing);
      if reread.None? {
        return false;
      }
      var tried := built.(credential := source.credential);
      var creds := CredentialsOf(reread.value);
      if !reread.value.Connected() || creds == tried || !portBuilds {
        return false;
      }
      var next := new Source(creds);
      if h.hold {
        h.sources.kept := h.sources.kept[account := Kept(creds, next)];
      }
      built, adoption, source := creds, reread.value.adoption, next;
      return true;
    }

    /** Ends a unit of work: hands over the source's credential with the session's stamp. */
    method End(loader: Loader, io: WriteIO) returns (reply: Reply)
      modifies loader
      ensures (loader.State(), reply)
              == HandOver(loader.cfg.ring, old(loader.State()), account, adoption, source.credential, io)
    {
      reply := loader.HandOverCredential(account, adoption, source.credential, io);
    }
  }

  class Holder {
    const connectors: set<string>
    const hold: bool
    const sources: Sources

    constructor (connectors: set<string>, hold: bool)
      ensures this.connectors == connectors && this.hold == hold
      ensures fresh(sources) && sources.kept == map[] && sources.Valid()
    {
      this.connectors, this.hold := connectors, hold;
      sources := new Sources();
    }

    /** A holder with connectors of its own over other's sources. */
    constructor Through(other: Holder, connectors: set<string>)
      ensures this.connectors == connectors && hold == other.hold && sources == other.sources
    {
      this.connectors, hold, sources := connectors, other.hold, other.sources;
    }

    method SourceFor(account: string, creds: Credentials) returns (source: Source)
      requires sources.Valid()
      modifies sources
      ensures sources.Valid() && source.BuiltWith(creds)
      ensures var before := old(sources.kept);
              var reuse := hold && account in before
                  && Serves(before[account].built, old(before[account].source.credential), creds);
              && (reuse ==> source == before[account].source && sources.kept == before)
              && (!reuse ==> fresh(source) && source.credential == creds.credential)
              && (!reuse ==> sources.kept == if hold then before[account := Kept(creds, source)] else before)
    {
      if !hold {
        source := new Source(creds);
        return;
      }
      if account in sources.kept {
        var k := sources.kept[account];
        var sameClient := k.built.clientId == creds.clientId && k.built.clientSecret == creds.clientSecret;
        if sameClient && (k.built.credential == creds.credential || k.source.credential == creds.credential) {
          return k.source;
        }
      }
      source := new Source(creds);
      sources.kept := sources.kept[account := Kept(creds, source)];
    }

    /** Opens a unit of work's session over a snapshot, or none. portBuilds is whether the connector
        builds a port over the source, which is kept whether or not it does. */
    method Open(snapshot: seq<Served>, account: string, portBuilds: bool) returns (s: Session?)
      requires sources.Valid()
      modifies sources
      ensures sources.Valid() && (s != null ==> s.source.BuiltWith(s.built))
      ensures var a := Lookup(snapshot, account);
              s == null <==> !a.Connected() || a.provider !in connectors || !portBuilds
      ensures var a := Lookup(snapshot, account);
              var before := old(sources.kept);
              var reuse := hold && account in before
                           && Serves(before[account].built, old(before[account].source.credential), CredentialsOf(a));
              && (s != null
                  ==> fresh(s) && s.h == this && s.account == account && s.adoption == a.adoption
                      && s.built == CredentialsOf(a))
              && (s != null && reuse ==> s.source == before[account].source && sources.kept == before)
              && (s != null && !reuse ==> fresh(s.source) && s.source.credential == a.credential)
              && (s != null && !reuse && hold ==> sources.kept == before[account := Kept(s.built, s.source)])
              && (!hold || !a.Connected() || a.provider !in connectors || reuse ==> sources.kept == before)
              && (hold && a.Connected() && a.provider in connectors && !reuse ==>
                    && account in sources.kept && sources.kept == before[account := sources.kept[account]]
                    && sources.kept[account].built == CredentialsOf(a)
                    && fresh(sources.kept[account].source)
                    && sources.kept[account].source.credential == a.credential)
    {
      var a := Lookup(snapshot, account);
      if !a.Connected() || a.provider !in connectors {
        return null;
      }
      var creds := CredentialsOf(a);
      var source := SourceFor(account, creds);
      if !portBuilds {
        return null;
      }
      s := new Session(this, account, creds, a.adoption, source);
    }
  }
}
