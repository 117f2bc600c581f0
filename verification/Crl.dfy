/**
 Certificate revocation lists (lib/servergencrl.go): what is on a list in any reachable state, in terms
 of the certificates that were issued.
*/
module Crl {
  import opened Basics
  import opened Attributes
  import opened Tables
  import opened Delegation
  import opened Serials
  import opened Registry
  import opened Handlers
  import opened Safety
  import opened Authority
  import opened Server

  /** The windows of a request; a missing upper bound is none, a missing lower bound is the zero time. */
  datatype Window = Window(expireAfter: int, expireBefore: Option<int>, revokedAfter: int, revokedBefore: Option<int>)

  datatype Revoked = Revoked(serial: nat, at: int)

  /** Revoked after the one time and before the other, and the same for the expiry; a missing time is no bound. */
  predicate Meets(w: Window, c: CertRow) {
    && c.revoked
    && w.revokedAfter < c.revokedAt && (w.revokedBefore == None || c.revokedAt < w.revokedBefore.value)
    && w.expireAfter < c.expiry && (w.expireBefore == None || c.expiry < w.expireBefore.value)
  }

  function Where(w: Window): CertWhere {
    RevokedIn(w.expireAfter, w.expireBefore, w.revokedAfter, w.revokedBefore)
  }

  /** SetString(serial, 16); a text that is no number leaves the value undefined, here zero. */
  function SerialOf(row: CertRow): nat {
    match Parse(row.serial, 16)
    case Some(n) => n
    case None => 0
  }

  /** The CA's own side: whether its certificate can be read, lets it sign lists, and has a key to sign with. */
  datatype Issuer = Issuer(certificate: bool, crlSign: bool, signer: bool)

  datatype CrlError = InvalidRevokedAfter | InvalidExpiredAfter | NoCaCert | NoCrlSignAuth | NoCaSigner

  /** The list, or the first error in the order of the checks. */
  datatype RevocationList = Entries(entries: seq<Revoked>) | Denied(error: CrlError)

  function EntriesOf(rows: seq<CertRow>): (entries: seq<Revoked>)
    ensures |entries| == |rows|
    ensures forall i | 0 <= i < |rows| :: entries[i] == Revoked(SerialOf(rows[i]), rows[i].revokedAt)
  {
    seq(|rows|, i requires 0 <= i < |rows| => Revoked(SerialOf(rows[i]), rows[i].revokedAt))
  }

  /** Some row within the window has this serial number and revocation time. */
  predicate OnList(t: Tables, w: Window, entry: Revoked) {
    exists i | 0 <= i < |t.certs| ::
      Meets(w, t.certs[i]) && SerialOf(t.certs[i]) == entry.serial && t.certs[i].revokedAt == entry.at
  }

  /** The selected rows are those within the window. */
  lemma SelectedOnList(t: Tables, w: Window)
    ensures forall entry :: entry in EntriesOf(Select(t.certs, Where(w).Holds)) <==> OnList(t, w, entry)
  {
    hide SerialOf;
    var rows := Select(t.certs, Where(w).Holds);
    forall entry ensures entry in EntriesOf(rows) <==> OnList(t, w, entry) {
      if k :| 0 <= k < |rows| && EntriesOf(rows)[k] == entry {
        KeepMember(t.certs, Where(w).Holds, true, rows[k]);
        var i :| 0 <= i < |t.certs| && t.certs[i] == rows[k];
      }
      if i :| 0 <= i < |t.certs| && Meets(w, t.certs[i]) && SerialOf(t.certs[i]) == entry.serial
              && t.certs[i].revokedAt == entry.at {
        KeepMember(t.certs, Where(w).Holds, true, t.certs[i]);
        var k :| 0 <= k < |rows| && rows[k] == t.certs[i];
        assert EntriesOf(rows)[k] == entry;
      }
    }
  }

  /** genCRL up to the signature. */
  method GenCrl(db: Accessor, ca: Issuer, w: Window) returns (list: RevocationList)
    ensures var turned := w.revokedBefore.Some? && w.revokedAfter > w.revokedBefore.value;
            var expired := w.expireBefore.Some? && w.expireAfter > w.expireBefore.value;
            match list
            case Entries(entries) =>
              && !turned && !expired && ca == Issuer(true, true, true)
              && entries == EntriesOf(Select(db.certs, Where(w).Holds))
              && forall entry :: entry in entries <==> OnList(db.State(), w, entry)
            case Denied(error) =>
              error == if turned then InvalidRevokedAfter
                       else if expired then InvalidExpiredAfter
                       else if !ca.certificate then NoCaCert
                       else if !ca.crlSign then NoCrlSignAuth
                       else NoCaSigner
    ensures list == Denied(NoCaSigner) ==> !ca.signer
  {
    if w.revokedBefore.Some? && w.revokedAfter > w.revokedBefore.value {
      return Denied(InvalidRevokedAfter);
    }
    if w.expireBefore.Some? && w.expireAfter > w.expireBefore.value {
      return Denied(InvalidExpiredAfter);
    }
    var certs := Select(db.certs, Where(w).Holds);
    if !ca.certificate {
      return Denied(NoCaCert);
    }
    if !ca.crlSign {
      return Denied(NoCrlSignAuth);
    }
    if !ca.signer {
      return Denied(NoCaSigner);
    }
    var revoked: seq<Revoked> := [];
    for i := 0 to |certs|
      invariant revoked == EntriesOf(certs)[..i]
    {
      revoked := revoked + [Revoked(SerialOf(certs[i]), certs[i].revokedAt)];
    }
    SelectedOnList(db.State(), w);
    return Entries(revoked);
  }

  lemma MayGenCrl(w: World, token: Cert)
    requires CertsOk(w)
    ensures Authentic(w, token) && AttributeIsTrue(w.db.users, token.cn, GEN_CRL) <==>
            exists u :: CallerIs(w, token, u) && Says(u, "hf.GenCRL")
  {
    hide CertsOk, Authentic, Good, Says, ValueOf, ParseBool;
    if Caller(w, token).Some? {
      var u := Caller(w, token).value;
      SaysIff(u, GEN_CRL);
    }
    forall u ensures Caller(w, token) == Some(u) <==> CallerIs(w, token, u) {
      CallerIff(w, token, u);
    }
  }

  /** genCRLHandler: nothing without a good certificate of an identity that may have lists made. */
  method HandleGenCrl(server: Server, token: Cert, ca: Issuer, w: Window) returns (r: Option<RevocationList>)
    requires CertsOk(server.State())
    ensures r.Some? <==> exists u :: CallerIs(server.State(), token, u) && Says(u, "hf.GenCRL")
    ensures r.Some? && r.value.Entries? ==>
              forall entry :: entry in r.value.entries <==> OnList(server.db.State(), w, entry)
    ensures r.Some? ==> (r.value.Entries? <==>
              && ca == Issuer(true, true, true)
              && !(w.revokedBefore.Some? && w.revokedAfter > w.revokedBefore.value)
              && !(w.expireBefore.Some? && w.expireAfter > w.expireBefore.value))
  {
    hide CertsOk, Authentic, CallerIs, Says, AttributeIsTrue;
    MayGenCrl(server.State(), token);
    var ok := server.TokenAuthentication(token);
    if !ok || !AttributeIsTrue(server.db.users, token.cn, GEN_CRL) {
      return None;
    }
    var list := GenCrl(server.db, ca, w);
    return Some(list);
  }

  // ----- every record is that of an issued certificate

  ghost predicate RowsIssued(w: World) {
    forall i | 0 <= i < |w.db.certs| :: RowIssued(w.issued, w.db.certs[i])
  }

  ghost predicate RowIssued(issued: set<Cert>, row: CertRow) {
    exists c :: c in issued && Records(row, c)
  }

  lemma RowIssuedAfter(issued: set<Cert>, issued': set<Cert>, row: CertRow, row': CertRow)
    requires RowIssued(issued, row) && issued <= issued' && CertKey(row') == CertKey(row) && row'.id == row.id
    ensures RowIssued(issued', row')
  {
    var c :| c in issued && Records(row, c);
    assert Records(row', c);
  }

  /** The certificates one step adds are issued in it. */
  lemma NewRows(cfg: Config, w: World, q: Request, w': World, i: nat)
    requires Step(cfg, w, q, w') && |w.db.certs| <= i < |w'.db.certs|
    ensures RowIssued(w'.issued, w'.db.certs[i])
  {
    hide CertKey, SigningAllowed, LoginAllowed, RegisterAllowed, ModifyAllowed, RemoveAllowed, AddAllowed;
    if q.Enroll? || q.Reenroll? {
      var id := if q.Enroll? then q.id else q.token.cn;
      assert Records(w'.db.certs[i], Cert(id, q.signing.serial, q.signing.aki));
    }
  }

  lemma StepKeepsRows(cfg: Config, w: World, q: Request, w': World)
    requires Step(cfg, w, q, w') && RowsIssued(w)
    ensures RowsIssued(w')
  {
    hide Step, RowIssued;
    StepGrowsCerts(cfg, w, q, w');
    forall i | 0 <= i < |w'.db.certs| ensures RowIssued(w'.issued, w'.db.certs[i]) {
      if i < |w.db.certs| {
        RowIssuedAfter(w.issued, w'.issued, w.db.certs[i], w'.db.certs[i]);
      } else {
        NewRows(cfg, w, q, w', i);
      }
    }
  }

  lemma {:induction false} RunKeepsRows(cfg: Config, boot: seq<UserRow>, ws: seq<World>, qs: seq<Request>, i: nat)
    requires Run(cfg, ws, qs) && Initial(ws[0], boot) && i < |ws|
    ensures RowsIssued(ws[i])
  {
    hide Step;
    if i == 0 {
    } else {
      RunKeepsRows(cfg, boot, ws, qs, i - 1);
      StepKeepsRows(cfg, ws[i - 1], qs[i - 1], ws[i]);
    }
  }

  // ----- what a list says

  /** The certificate's record is within the window, and revoked at this time. */
  ghost predicate Listed(t: Tables, w: Window, c: Cert, at: int) {
    exists i | 0 <= i < |t.certs| :: Records(t.certs[i], c) && Meets(w, t.certs[i]) && t.certs[i].revokedAt == at
  }

  lemma RecordedSerial(row: CertRow, c: Cert)
    requires Records(row, c)
    ensures SerialOf(row) == c.serial
  {
    SerialSurvives(c.serial);
  }

  lemma OnListIsListed(x: World, w: Window, entry: Revoked) returns (c: Cert)
    requires RowsIssued(x) && OnList(x.db, w, entry)
    ensures c in x.issued && c.serial == entry.serial && Listed(x.db, w, c, entry.at)
  {
    hide SerialOf, Meets;
    var certs := x.db.certs;
    var j :| 0 <= j < |certs| && Meets(w, certs[j]) && SerialOf(certs[j]) == entry.serial
             && certs[j].revokedAt == entry.at;
    assert RowIssued(x.issued, certs[j]);
    c :| c in x.issued && Records(certs[j], c);
    RecordedSerial(certs[j], c);
  }

  lemma ListedIsOnList(t: Tables, w: Window, c: Cert, at: int)
    requires Listed(t, w, c, at)
    ensures OnList(t, w, Revoked(c.serial, at))
  {
    hide SerialOf, Meets;
    var j :| 0 <= j < |t.certs| && Records(t.certs[j], c) && Meets(w, t.certs[j]) && t.certs[j].revokedAt == at;
    RecordedSerial(t.certs[j], c);
  }

  /**
   In every reachable state a list carries exactly the serial numbers, as issued, and revocation times of
   the issued certificates whose records are revoked within the window.
  */
  lemma ListIsExact(cfg: Config, boot: seq<UserRow>, ws: seq<World>, qs: seq<Request>, i: nat, w: Window,
                    entry: Revoked)
    requires Run(cfg, ws, qs) && Initial(ws[0], boot) && i < |ws|
    ensures OnList(ws[i].db, w, entry) <==>
            exists c :: c in ws[i].issued && c.serial == entry.serial && Listed(ws[i].db, w, c, entry.at)
  {
    RunKeepsRows(cfg, boot, ws, qs, i);
    hide *;
    if OnList(ws[i].db, w, entry) {
      var c := OnListIsListed(ws[i], w, entry);
    }
    if c :| c in ws[i].issued && c.serial == entry.serial && Listed(ws[i].db, w, c, entry.at) {
      ListedIsOnList(ws[i].db, w, c, entry.at);
    }
  }
}
