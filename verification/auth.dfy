/** Registration, password checks and signed identity tokens over a table of users. */
module Auth {
  import opened Texts
  import opened Readers
  import Utf8

  const DOT: Code := 46
  const DOLLAR: Code := 36
  const SCHEME: Text := Ascii("pbkdf2_sha256")
  const ITERATIONS := 10_000
  const DIGEST_BYTES := 32

  type Digest = b: Bytes | |b| == DIGEST_BYTES witness seq(DIGEST_BYTES, i => 0)

  // ---- password records ------------------------------------------------------------------

  datatype PasswordRecord = PasswordRecord(salt: Bytes, digest: Bytes) {
    function Encode(): Text {
      Prefix(salt) + Hex(digest)
    }
  }

  /** Everything of a record's text but the digest. */
  function Prefix(salt: Bytes): Text {
    SCHEME + [DOLLAR] + Str(ITERATIONS) + [DOLLAR] + Hex(salt) + [DOLLAR]
  }

  /** The one text of a record, spelled out. */
  function RecordText(salt: Bytes, digest: Bytes): Text {
    Ascii("pbkdf2_sha256$10000$") + Hex(salt) + Ascii("$") + Hex(digest)
  }

  lemma {:induction false} EncodesAsText(rec: PasswordRecord)
    ensures rec.Encode() == RecordText(rec.salt, rec.digest)
  {
    IterationsSpelled(ITERATIONS);
    assert SCHEME + [DOLLAR] + Ascii("10000") + [DOLLAR] == Ascii("pbkdf2_sha256$10000$");
    assert [DOLLAR] == Ascii("$");
  }

  lemma {:induction false} IterationsSpelled(n: int)
    requires n == 10_000
    ensures Str(n) == Ascii("10000")
  {
    assert Decimal(n / 10_000) == [49];
    assert Decimal(n / 1_000) == [49, 48];
    assert Decimal(n / 100) == [49, 48, 48];
    assert Decimal(n / 10) == [49, 48, 48, 48];
    assert Decimal(n) == [49, 48, 48, 48, 48];
  }

  function Parse(username: Text, text: Text): Option<PasswordRecord> {
    if !Utf8.Encodable(username) then None
    else
      var salt := Utf8.Encode(username);
      if |text| != |Prefix(salt)| + 2 * DIGEST_BYTES then None
      else
        var parts := Split(text, DOLLAR);
        if |parts| != 4 then None
        else
          match FromHex(parts[3])
          case None => None
          case Some(digest) =>
            if || parts[0] != SCHEME
               || parts[1] != Str(ITERATIONS)
               || parts[2] != Hex(salt)
               || parts[3] != Hex(digest)
               || |digest| != DIGEST_BYTES
            then None
            else Some(PasswordRecord(salt, digest))
  }

  /** The only texts that split into four given pieces. */
  lemma {:induction false} SplitFour(t: Text, a: Text, b: Text, c: Text, d: Text)
    requires DOLLAR !in a && DOLLAR !in b && DOLLAR !in c && DOLLAR !in d
    ensures Split(t, DOLLAR) == [a, b, c, d]
            <==> t == a + [DOLLAR] + b + [DOLLAR] + c + [DOLLAR] + d
  {
    var cd := c + [DOLLAR] + d;
    var bcd := b + [DOLLAR] + cd;
    var abcd := a + [DOLLAR] + bcd;
    SplitFree(d, DOLLAR);
    SplitAt(c, d, DOLLAR);
    SplitAt(b, cd, DOLLAR);
    SplitAt(a, bcd, DOLLAR);
    assert abcd == a + [DOLLAR] + b + [DOLLAR] + c + [DOLLAR] + d;
    assert Split(abcd, DOLLAR) == [a, b, c, d];
    SplitJoin(t, DOLLAR);
    SplitJoin(abcd, DOLLAR);
  }

  /** A record is read from its own printed text, and from no other. */
  lemma {:induction false} ParseIffEncoded(username: Text, text: Text, rec: PasswordRecord)
    ensures Parse(username, text) == Some(rec)
            <==> && Utf8.Encodable(username) && rec.salt == Utf8.Encode(username)
                 && |rec.digest| == 32 && text == RecordText(rec.salt, rec.digest)
  {
    EncodesAsText(rec);
    if Parse(username, text) == Some(rec) {
      OnlyItsText(username, text, rec);
    }
    if Utf8.Encodable(username) && rec.salt == Utf8.Encode(username) && |rec.digest| == 32 {
      ItsTextReads(username, rec);
    }
  }

  lemma {:induction false} FourParts(rec: PasswordRecord, text: Text)
    ensures Split(text, DOLLAR) == [SCHEME, Str(ITERATIONS), Hex(rec.salt), Hex(rec.digest)]
            <==> text == rec.Encode()
  {
    SchemeFree();
    SplitFour(text, SCHEME, Str(ITERATIONS), Hex(rec.salt), Hex(rec.digest));
  }

  lemma {:induction false} OnlyItsText(username: Text, text: Text, rec: PasswordRecord)
    requires Parse(username, text) == Some(rec)
    ensures Utf8.Encodable(username) && rec.salt == Utf8.Encode(username)
    ensures |rec.digest| == 32 && text == rec.Encode()
  {
    var parts := Split(text, DOLLAR);
    assert parts == [parts[0], parts[1], parts[2], parts[3]];
    FourParts(rec, text);
  }

  lemma {:induction false} ItsTextReads(username: Text, rec: PasswordRecord)
    requires Utf8.Encodable(username) && rec.salt == Utf8.Encode(username) && |rec.digest| == 32
    ensures Parse(username, rec.Encode()) == Some(rec)
  {
    FourParts(rec, rec.Encode());
    HexRoundTrip(rec.digest);
    assert |rec.Encode()| == |Prefix(rec.salt)| + 2 * DIGEST_BYTES;
  }

  lemma {:induction false} SchemeFree()
    ensures DOLLAR !in SCHEME && DOLLAR !in Str(ITERATIONS)
  {
    assert forall i :: 0 <= i < |SCHEME| ==> SCHEME[i] == "pbkdf2_sha256"[i] as int;
  }

  /** One text is a record for at most one username. */
  lemma {:induction false} RecordBindsUsername(u: Text, v: Text, text: Text)
    requires Parse(u, text).Some? && Parse(v, text).Some?
    ensures u == v
  {
    var r, s := Parse(u, text).value, Parse(v, text).value;
    ParseIffEncoded(u, text, r);
    ParseIffEncoded(v, text, s);
    EncodesAsText(r);
    EncodesAsText(s);
    SchemeFree();
    SplitFour(text, SCHEME, Str(ITERATIONS), Hex(r.salt), Hex(r.digest));
    SplitFour(text, SCHEME, Str(ITERATIONS), Hex(s.salt), Hex(s.digest));
    HexInjective(r.salt, s.salt);
    Utf8.RoundTrip(u, []);
    Utf8.RoundTrip(v, []);
  }

  // ---- users -----------------------------------------------------------------------------

  datatype Role = User | Admin

  datatype UserRecord = UserRecord(id: int, username: Text, passwordHash: Text, role: Role)

  datatype Credentials = Credentials(username: Text, password: Text) {
    /** What the request schema has checked before the service is called. */
    predicate Valid() {
      Utf8.Encodable(username) && Utf8.Encodable(password)
    }
  }

  /** The table of users: rows by identifier, and the unique index on their names. */
  datatype Users = Users(rows: map<int, UserRecord>, index: map<Text, int>) {
    predicate Sound() {
      && (forall id <- rows :: rows[id].id == id && rows[id].username in index
                               && index[rows[id].username] == id)
      && (forall name <- index :: index[name] in rows && rows[index[name]].username == name)
    }

    function ById(id: int): Option<UserRecord> {
      if id in rows then Some(rows[id]) else None
    }

    function ByUsername(name: Text): Option<UserRecord>
      requires Sound()
    {
      if name in index then Some(rows[index[name]]) else None
    }

    function Insert(user: UserRecord): Users {
      Users(rows[user.id := user], index[user.username := user.id])
    }
  }

  // ---- the service -----------------------------------------------------------------------

  /** `mac` signs under the service's key; `derive` stretches a password over a salt. */
  datatype Service = Service(users: Users, mac: Bytes -> Digest, derive: (Bytes, Bytes) -> Digest,
                             digit: Code -> Option<Digit>)
  {
    function Sign(payload: Text): Digest
      requires Utf8.Encodable(payload)
    {
      mac(Utf8.Encode(payload))
    }

    function IssueToken(id: int): Text {
      StrEncodable(id);
      Str(id) + [DOT] + Hex(Sign(Str(id)))
    }

    /** `None` is the one error every refused token raises. */
    function VerifyToken(token: Text): Option<UserRecord> {
      var parts := Split(token, DOT);
      if |parts| != 2 then None
      else
        match (ReadInt(parts[0], digit), FromHex(parts[1]))
        case (Some(id), Some(signature)) =>
          StrEncodable(id);
          if || id < 1
             || parts[0] != Str(id)
             || parts[1] != Hex(signature)
             || signature != Sign(parts[0])
          then None
          else users.ById(id)
        case _ => None
    }

    function FromCredentials(c: Credentials): PasswordRecord
      requires c.Valid()
    {
      var salt := Utf8.Encode(c.username);
      PasswordRecord(salt, derive(Utf8.Encode(c.password), salt))
    }

    /** Registration under the identifier the table assigns; `None` for a name already taken. */
    function Register(c: Credentials, id: int): Option<Service>
      requires c.Valid()
    {
      if c.username in users.index then None
      else
        var user := UserRecord(id, c.username, FromCredentials(c).Encode(), User);
        Some(this.(users := users.Insert(user)))
    }

    /** `None` is the one error every refused login raises. */
    function Authenticate(c: Credentials): Option<UserRecord>
      requires users.Sound() && c.Valid()
    {
      var user := users.ByUsername(c.username);
      var rec := if user.None? then None else Parse(user.value.username, user.value.passwordHash);
      var salt := if rec.None? then Utf8.Encode(c.username) else rec.value.salt;
      var expected := if rec.None? then seq(DIGEST_BYTES, i => 0) else rec.value.digest;
      var candidate := derive(Utf8.Encode(c.password), salt);
      if user.None? || rec.None? || candidate != expected then None else user
    }
  }

  lemma {:induction false} StrEncodable(id: int)
    ensures Utf8.Encodable(Str(id)) && DOT !in Str(id)
  {
  }

  /** The one token of a user: the identifier, and the code of its text under the service's key. */
  function TokenText(id: int, mac: Bytes -> Digest): Text {
    StrEncodable(id);
    Str(id) + Ascii(".") + Hex(mac(Utf8.Encode(Str(id))))
  }

  lemma {:induction false} IssuedText(s: Service, id: int)
    ensures s.IssueToken(id) == TokenText(id, s.mac)
  {
    assert [DOT] == Ascii(".");
  }

  /** A token is accepted exactly when it is the one text of a stored user's. */
  lemma {:induction false} VerifyIffIssued(s: Service, token: Text, user: UserRecord)
    requires s.users.Sound()
    ensures s.VerifyToken(token) == Some(user)
            <==> user.id >= 1 && s.users.ById(user.id) == Some(user) && token == TokenText(user.id, s.mac)
  {
    IssuedText(s, user.id);
    SplitJoin(token, DOT);
    if s.VerifyToken(token) == Some(user) {
      var parts := Split(token, DOT);
      assert Join(parts, DOT) == parts[0] + [DOT] + parts[1] by {
        assert Join(parts[1..], DOT) == parts[1];
      }
    }
    if token == s.IssueToken(user.id) {
      StrEncodable(user.id);
      var a, signature := Str(user.id), s.Sign(Str(user.id));
      SplitAt(a, Hex(signature), DOT);
      SplitFree(Hex(signature), DOT);
      assert Split(token, DOT) == [a, Hex(signature)];
      IntRoundTrip(user.id, s.digit);
      HexRoundTrip(signature);
    }
  }

  /** A login succeeds exactly for the stored user whose record is the text of the username and of
      the digest its own password derives. */
  lemma {:induction false} AuthenticateIffDerived(s: Service, c: Credentials, user: UserRecord)
    requires s.users.Sound() && c.Valid()
    ensures s.Authenticate(c) == Some(user)
            <==> && s.users.ByUsername(c.username) == Some(user)
                 && user.passwordHash
                    == RecordText(Utf8.Encode(c.username),
                                  s.derive(Utf8.Encode(c.password), Utf8.Encode(c.username)))
  {
    var stored := s.users.ByUsername(c.username);
    if stored == Some(user) {
      assert user.username == c.username;
      var salt := Utf8.Encode(c.username);
      var want := PasswordRecord(salt, s.derive(Utf8.Encode(c.password), salt));
      ParseIffEncoded(c.username, user.passwordHash, want);
      var rec := Parse(c.username, user.passwordHash);
      if rec.Some? {
        ParseIffEncoded(c.username, user.passwordHash, rec.value);
      }
    }
  }

  /** Registration is refused exactly for a taken name. Otherwise it stores one new row, an
      ordinary user with the record of its credentials, and keeps the table and its index in step. */
  lemma {:induction false} RegisterKeepsSound(s: Service, c: Credentials, id: int)
    requires s.users.Sound() && c.Valid() && id !in s.users.rows
    ensures s.Register(c, id).Some? <==> c.username !in s.users.index
    ensures s.Register(c, id).Some? ==>
              var after := s.Register(c, id).value;
              var hash := RecordText(Utf8.Encode(c.username),
                                     s.derive(Utf8.Encode(c.password), Utf8.Encode(c.username)));
              && after.users.Sound() && after.mac == s.mac && after.derive == s.derive && after.digit == s.digit
              && after.users.ById(id) == Some(UserRecord(id, c.username, hash, User))
              && after.users.ByUsername(c.username) == after.users.ById(id)
              && (forall other :: other != id ==> after.users.ById(other) == s.users.ById(other))
              && (forall name :: name != c.username ==>
                    after.users.ByUsername(name) == s.users.ByUsername(name))
  {
    EncodesAsText(s.FromCredentials(c));
  }

  /** After registration the name logs in with exactly the passwords that derive the same digest
      under it, and every other login fares as before. */
  lemma {:induction false} RegisterThenAuthenticate(
    s: Service, c: Credentials, id: int, d: Credentials)
    requires s.users.Sound() && c.Valid() && d.Valid()
    requires id !in s.users.rows && s.Register(c, id).Some?
    ensures var after := s.Register(c, id).value;
            && after.users.Sound()
            && (d.username == c.username ==>
                  (after.Authenticate(d).Some?
                   <==> s.derive(Utf8.Encode(d.password), Utf8.Encode(c.username))
                        == s.derive(Utf8.Encode(c.password), Utf8.Encode(c.username))))
            && (d.username != c.username ==> after.Authenticate(d) == s.Authenticate(d))
  {
    RegisterKeepsSound(s, c, id);
    var after := s.Register(c, id).value;
    if d.username == c.username {
      var salt := Utf8.Encode(c.username);
      AuthenticateIffDerived(after, d, after.users.rows[id]);
      if after.Authenticate(d).Some? {
        AuthenticateIffDerived(after, d, after.Authenticate(d).value);
      }
      TextDecides(salt, s.derive(Utf8.Encode(d.password), salt), s.derive(Utf8.Encode(c.password), salt));
    } else {
      SameLogin(s, after, d);
    }
  }

  lemma {:induction false} TextDecides(salt: Bytes, a: Bytes, b: Bytes)
    ensures RecordText(salt, a) == RecordText(salt, b) <==> a == b
  {
    var start := Ascii("pbkdf2_sha256$10000$") + Hex(salt) + Ascii("$");
    if RecordText(salt, a) == RecordText(salt, b) {
      assert Hex(a) == RecordText(salt, a)[|start|..];
      assert Hex(b) == RecordText(salt, b)[|start|..];
      HexInjective(a, b);
    }
  }

  /** Two services that hold the same user under a name, or none, log it in alike. */
  lemma {:induction false} SameLogin(s: Service, after: Service, d: Credentials)
    requires s.users.Sound() && after.users.Sound() && d.Valid() && s.derive == after.derive
    requires s.users.ByUsername(d.username) == after.users.ByUsername(d.username)
    ensures after.Authenticate(d) == s.Authenticate(d)
  {
  }

  /** The new user's token names the new user; every other token fares as before. */
  lemma {:induction false} RegisterThenVerify(
    s: Service, c: Credentials, id: int, token: Text)
    requires s.users.Sound() && c.Valid()
    requires id >= 1 && id !in s.users.rows && s.Register(c, id).Some?
    ensures var after := s.Register(c, id).value;
            if token == TokenText(id, s.mac) then
              after.VerifyToken(token) == after.users.ById(id) == after.users.ByUsername(c.username)
            else
              after.VerifyToken(token) == s.VerifyToken(token)
  {
    RegisterKeepsSound(s, c, id);
    var after := s.Register(c, id).value;
    if token == TokenText(id, s.mac) {
      VerifyIffIssued(after, token, after.users.rows[id]);
    } else {
      OtherToken(s, after, id, token);
    }
  }

  /** Two tables that differ only at `id` disagree on no token but that of `id`. */
  lemma {:induction false} OtherToken(s: Service, after: Service, id: int, token: Text)
    requires s.users.Sound() && after.users.Sound() && s.mac == after.mac && s.digit == after.digit
    requires forall other :: other != id ==> after.users.ById(other) == s.users.ById(other)
    requires token != TokenText(id, s.mac)
    ensures after.VerifyToken(token) == s.VerifyToken(token)
  {
    forall user: UserRecord
      ensures s.VerifyToken(token) == Some(user) <==> after.VerifyToken(token) == Some(user)
    {
      VerifyIffIssued(s, token, user);
      VerifyIffIssued(after, token, user);
    }
    if after.VerifyToken(token).Some? {
      assert s.VerifyToken(token) == Some(after.VerifyToken(token).value);
    }
  }
}
