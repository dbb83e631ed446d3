/** Serialising the three messages, and reading the result back. */
module Serialization {
  import opened Bytes
  import opened WireFormat
  import opened MessageLoop
  import opened Messages

  // ------------------------------------------------------------------
  // The records of a message, in the order they are written
  // ------------------------------------------------------------------

  function LoginFields(l: Login): seq<Field> {
    Maybe(l.username.Some?, 2, Data(Or(l.username, []))) +
    (Maybe(l.password.Some?, 3, Data(Or(l.password, []))) +
     (Maybe(l.version.Some?, 4, Varint(Int32ToVarint(Or(l.version, 0)))) + l.unknown))
  }

  function ConnectedFields(p: Connected): seq<Field> {
    Maybe(p.connected.Some?, 1, Varint(Int32ToVarint(Or(p.connected, 0)))) +
    (Maybe(p.characterList.Some?, 2, Data(Or(p.characterList, []))) + p.unknown)
  }

  function HeaderFields(h: Header): seq<Field> {
    Maybe(h.login.Some?, 1, Data(LoginBytes(Or(h.login, NO_LOGIN)))) +
    (Maybe(h.connected.Some?, 2, Data(ConnectedBytes(Or(h.connected, NO_CONNECTED)))) +
     (Maybe(h.authCode.Some?, 3, Data(Or(h.authCode, []))) + h.unknown))
  }

  function LoginBytes(l: Login): bytes { EncFields(LoginFields(l)) }

  function ConnectedBytes(p: Connected): bytes { EncFields(ConnectedFields(p)) }

  function HeaderBytes(h: Header): bytes { EncFields(HeaderFields(h)) }

  // ------------------------------------------------------------------
  // Clean messages: no unknown field is one the parser would recognise
  // ------------------------------------------------------------------

  predicate LoginKnows(f: Field) {
    ((f.num == 2 || f.num == 3) && f.val.Data?) || (f.num == 4 && f.val.Varint?)
  }

  predicate ConnectedKnows(f: Field) {
    (f.num == 1 && f.val.Varint?) || (f.num == 2 && f.val.Data?)
  }

  predicate HeaderKnows(f: Field) {
    f.num <= 3 && f.val.Data?
  }

  predicate LoginClean(l: Login) { forall f | f in l.unknown :: !LoginKnows(f) }

  predicate ConnectedClean(p: Connected) { forall f | f in p.unknown :: !ConnectedKnows(f) }

  predicate HeaderClean(h: Header) {
    && (forall f | f in h.unknown :: !HeaderKnows(f))
    && LoginClean(Or(h.login, NO_LOGIN))
    && ConnectedClean(Or(h.connected, NO_CONNECTED))
  }

  /** Whatever is parsed into a clean login, even input that is rejected half way, leaves it clean. */
  lemma LoginStaysClean(l: Login, s: bytes)
    requires LoginClean(l)
    ensures LoginClean(Loop(LOGIN, l, s).msg)
  {
    LoopKeeps(LOGIN, LoginClean, l, s);
  }

  lemma ConnectedStaysClean(p: Connected, s: bytes)
    requires ConnectedClean(p)
    ensures ConnectedClean(Loop(CONNECTED, p, s).msg)
  {
    LoopKeeps(CONNECTED, ConnectedClean, p, s);
  }

  lemma HeaderStaysClean(h: Header, s: bytes)
    requires HeaderClean(h)
    ensures HeaderClean(Loop(HEADER, h, s).msg)
  {
    forall x, f | HeaderClean(x)
      ensures HeaderClean(HEADER.step(x, f).msg)
    {
      if f.val.Data? {
        LoginStaysClean(Or(x.login, NO_LOGIN), f.val.b);
        ConnectedStaysClean(Or(x.connected, NO_CONNECTED), f.val.b);
      }
    }
    LoopKeeps(HEADER, HeaderClean, h, s);
  }

  // ------------------------------------------------------------------
  // Round trip
  // ------------------------------------------------------------------

  lemma {:induction false} LoginFoldUnknown(l: Login, fs: seq<Field>)
    requires forall f | f in fs :: !LoginKnows(f)
    ensures Fold(LOGIN, l, fs) == Next(l.(unknown := l.unknown + fs))
    decreases |fs|
  {
    if fs == [] {
      assert l.unknown + fs == l.unknown;
    } else {
      assert !LoginKnows(fs[0]);
      LoginFoldUnknown(l.(unknown := l.unknown + [fs[0]]), fs[1..]);
      assert l.unknown + [fs[0]] + fs[1..] == l.unknown + fs;
    }
  }

  lemma {:induction false} ConnectedFoldUnknown(p: Connected, fs: seq<Field>)
    requires forall f | f in fs :: !ConnectedKnows(f)
    ensures Fold(CONNECTED, p, fs) == Next(p.(unknown := p.unknown + fs))
    decreases |fs|
  {
    if fs == [] {
      assert p.unknown + fs == p.unknown;
    } else {
      assert !ConnectedKnows(fs[0]);
      ConnectedFoldUnknown(p.(unknown := p.unknown + [fs[0]]), fs[1..]);
      assert p.unknown + [fs[0]] + fs[1..] == p.unknown + fs;
    }
  }

  lemma {:induction false} HeaderFoldUnknown(h: Header, fs: seq<Field>)
    requires forall f | f in fs :: !HeaderKnows(f)
    ensures Fold(HEADER, h, fs) == Next(h.(unknown := h.unknown + fs))
    decreases |fs|
  {
    if fs == [] {
      assert h.unknown + fs == h.unknown;
    } else {
      assert !HeaderKnows(fs[0]);
      HeaderFoldUnknown(h.(unknown := h.unknown + [fs[0]]), fs[1..]);
      assert h.unknown + [fs[0]] + fs[1..] == h.unknown + fs;
    }
  }

  lemma LoginTakes(m: Login, b: bytes, i: int32)
    ensures LOGIN.step(m, Field(2, Data(b))) == Next(m.(username := Some(b)))
    ensures LOGIN.step(m, Field(3, Data(b))) == Next(m.(password := Some(b)))
    ensures LOGIN.step(m, Field(4, Varint(Int32ToVarint(i)))) == Next(m.(version := Some(i)))
  {
    Int32RoundTrip(i);
  }

  lemma LoginFold(l: Login)
    requires LoginClean(l)
    ensures Fold(LOGIN, NO_LOGIN, LoginFields(l)) == Next(l)
  {
    hide LoginStep;
    hide Int32ToVarint;
    var m0 := NO_LOGIN;
    var m1 := m0.(username := l.username);
    var m2 := m1.(password := l.password);
    var m3 := m2.(version := l.version);
    var u, p, i := Or(l.username, []), Or(l.password, []), Or(l.version, 0);
    var fs2 := Maybe(l.version.Some?, 4, Varint(Int32ToVarint(i))) + l.unknown;
    var fs1 := Maybe(l.password.Some?, 3, Data(p)) + fs2;
    LoginTakes(m0, u, 0);
    FoldMaybe(LOGIN, m0, l.username.Some?, 2, Data(u), fs1);
    LoginTakes(m1, p, 0);
    FoldMaybe(LOGIN, m1, l.password.Some?, 3, Data(p), fs2);
    LoginTakes(m2, [], i);
    FoldMaybe(LOGIN, m2, l.version.Some?, 4, Varint(Int32ToVarint(i)), l.unknown);
    LoginFoldUnknown(m3, l.unknown);
    assert [] + l.unknown == l.unknown;
  }

  lemma LoginRoundTrip(l: Login)
    requires LoginClean(l) && |LoginBytes(l)| <= MAX_INT
    ensures Parse(LOGIN, NO_LOGIN, LoginBytes(l)) == Some(l)
  {
    LoginFold(l);
    ParseIsFold(LOGIN, NO_LOGIN, LoginBytes(l));
    RecordsOfFields(LoginFields(l));
  }

  lemma ConnectedRoundTrip(p: Connected)
    requires ConnectedClean(p) && |ConnectedBytes(p)| <= MAX_INT
    ensures Parse(CONNECTED, NO_CONNECTED, ConnectedBytes(p)) == Some(p)
  {
    var m0 := NO_CONNECTED;
    var m1 := m0.(connected := p.connected);
    var m2 := m1.(characterList := p.characterList);
    var connected := Varint(Int32ToVarint(Or(p.connected, 0)));
    Int32RoundTrip(Or(p.connected, 0));
    var fs1 := Maybe(p.characterList.Some?, 2, Data(Or(p.characterList, []))) + p.unknown;
    FoldMaybe(CONNECTED, m0, p.connected.Some?, 1, connected, fs1);
    FoldMaybe(CONNECTED, m1, p.characterList.Some?, 2, Data(Or(p.characterList, [])), p.unknown);
    ConnectedFoldUnknown(m2, p.unknown);
    assert [] + p.unknown == p.unknown;
    ParseIsFold(CONNECTED, NO_CONNECTED, ConnectedBytes(p));
    RecordsOfFields(ConnectedFields(p));
  }

  lemma MaybeSize(present: bool, num: FieldNumber, b: bytes, fs: seq<Field>)
    ensures present ==> |EncFields(Maybe(present, num, Data(b)) + fs)| >= |b| + |EncFields(fs)|
    ensures !present ==> EncFields(Maybe(present, num, Data(b)) + fs) == EncFields(fs)
  {
    EncFieldsConcat(Maybe(present, num, Data(b)), fs);
    if present {
      FirstField([Field(num, Data(b))], []);
      assert |EncBody(Field(num, Data(b)))| >= |b|;
    } else {
      assert Maybe(present, num, Data(b)) + fs == fs;
    }
  }

  /** A submessage is no longer than the header that holds it. */
  lemma SubmessagesFit(h: Header)
    ensures h.login.Some? ==> |LoginBytes(h.login.value)| <= |HeaderBytes(h)|
    ensures h.connected.Some? ==> |ConnectedBytes(h.connected.value)| <= |HeaderBytes(h)|
  {
    var fs2 := Maybe(h.authCode.Some?, 3, Data(Or(h.authCode, []))) + h.unknown;
    var c := ConnectedBytes(Or(h.connected, NO_CONNECTED));
    MaybeSize(h.login.Some?, 1, LoginBytes(Or(h.login, NO_LOGIN)), Maybe(h.connected.Some?, 2, Data(c)) + fs2);
    MaybeSize(h.connected.Some?, 2, c, fs2);
  }

  lemma HeaderTakesLogin(m: Header, l: Login)
    requires m.login == None && LoginClean(l) && |LoginBytes(l)| <= MAX_INT
    ensures HEADER.step(m, Field(1, Data(LoginBytes(l)))) == Next(m.(login := Some(l)))
  {
    LoginRoundTrip(l);
  }

  lemma HeaderTakesConnected(m: Header, p: Connected)
    requires m.connected == None && ConnectedClean(p) && |ConnectedBytes(p)| <= MAX_INT
    ensures HEADER.step(m, Field(2, Data(ConnectedBytes(p)))) == Next(m.(connected := Some(p)))
  {
    ConnectedRoundTrip(p);
  }

  lemma HeaderTakesCode(m: Header, b: bytes)
    ensures HEADER.step(m, Field(3, Data(b))) == Next(m.(authCode := Some(b)))
  {
  }

  lemma HeaderFold(h: Header)
    requires HeaderClean(h) && |HeaderBytes(h)| <= MAX_INT
    ensures Fold(HEADER, NO_HEADER, HeaderFields(h)) == Next(h)
  {
    hide HeaderStep;
    SubmessagesFit(h);
    var m0 := NO_HEADER;
    var m1 := m0.(login := h.login);
    var m2 := m1.(connected := h.connected);
    var m3 := m2.(authCode := h.authCode);
    var login, connected := LoginBytes(Or(h.login, NO_LOGIN)), ConnectedBytes(Or(h.connected, NO_CONNECTED));
    var fs2 := Maybe(h.authCode.Some?, 3, Data(Or(h.authCode, []))) + h.unknown;
    var fs1 := Maybe(h.connected.Some?, 2, Data(connected)) + fs2;
    if h.login.Some? { HeaderTakesLogin(m0, h.login.value); }
    FoldMaybe(HEADER, m0, h.login.Some?, 1, Data(login), fs1);
    if h.connected.Some? { HeaderTakesConnected(m1, h.connected.value); }
    FoldMaybe(HEADER, m1, h.connected.Some?, 2, Data(connected), fs2);
    HeaderTakesCode(m2, Or(h.authCode, []));
    FoldMaybe(HEADER, m2, h.authCode.Some?, 3, Data(Or(h.authCode, [])), h.unknown);
    HeaderFoldUnknown(m3, h.unknown);
    assert [] + h.unknown == h.unknown;
  }

  /**
   A header that fits in an int comes back from its serialisation exactly when it is clean:
   an unknown field the parser recognises would come back as a known one.
   */
  lemma HeaderRoundTrip(h: Header)
    requires |HeaderBytes(h)| <= 0x7FFF_FFFF
    ensures Parse(HEADER, NO_HEADER, HeaderBytes(h)) == Some(h) <==> HeaderClean(h)
  {
    if HeaderClean(h) {
      HeaderFold(h);
      ParseIsFold(HEADER, NO_HEADER, HeaderBytes(h));
      RecordsOfFields(HeaderFields(h));
    }
    HeaderStaysClean(NO_HEADER, HeaderBytes(h));
  }

  /** Serialise-after-parse: normalising an accepted input twice gives the same bytes, and header, as once. */
  lemma NormalIdempotent(s: bytes)
    requires Parse(HEADER, NO_HEADER, s).Some? && |HeaderBytes(Parse(HEADER, NO_HEADER, s).value)| <= 0x7FFF_FFFF
    ensures var normal := HeaderBytes(Parse(HEADER, NO_HEADER, s).value);
            var again := Parse(HEADER, NO_HEADER, normal);
            again == Parse(HEADER, NO_HEADER, s) && HeaderBytes(again.value) == normal
  {
    HeaderStaysClean(NO_HEADER, s);
    HeaderRoundTrip(Parse(HEADER, NO_HEADER, s).value);
  }

  // ------------------------------------------------------------------
  // Two packets in a row, field by field
  // ------------------------------------------------------------------

  /**
   Two serialised headers in a row parse to one: of texts and numbers the later one present wins, also
   inside the submessages, and unknown fields are kept in order.
   */
  lemma ConcatFieldwise(a: Header, b: Header)
    requires HeaderClean(a) && |HeaderBytes(a)| <= 0x7FFF_FFFF
    requires HeaderClean(b) && |HeaderBytes(b)| <= 0x7FFF_FFFF
    ensures var r := Parse(HEADER, NO_HEADER, HeaderBytes(a) + HeaderBytes(b));
            && r.Some?
            && r.value.authCode == (if b.authCode.Some? then b.authCode else a.authCode)
            && r.value.unknown == a.unknown + b.unknown
            && (a.login.None? ==> r.value.login == b.login)
            && (b.login.None? ==> r.value.login == a.login)
            && (a.connected.None? ==> r.value.connected == b.connected)
            && (b.connected.None? ==> r.value.connected == a.connected)
            && (a.login.Some? && b.login.Some? ==>
                 var x, y := a.login.value, b.login.value;
                 r.value.login == Some(Login(
                   if y.username.Some? then y.username else x.username,
                   if y.password.Some? then y.password else x.password,
                   if y.version.Some? then y.version else x.version,
                   x.unknown + y.unknown)))
            && (a.connected.Some? && b.connected.Some? ==>
                 var x, y := a.connected.value, b.connected.value;
                 r.value.connected == Some(Connected(
                   if y.connected.Some? then y.connected else x.connected,
                   if y.characterList.Some? then y.characterList else x.characterList,
                   x.unknown + y.unknown)))
  {
    hide HeaderBytes, HeaderClean, Parse;
    HeaderRoundTrip(a);
    HeaderRoundTrip(b);
    HeaderConcatMerges(HeaderBytes(a), HeaderBytes(b));
    if b.login.Some? { LoginIdentity(b.login.value); }
    if b.connected.Some? { ConnectedIdentity(b.connected.value); }
  }

  // ------------------------------------------------------------------
  // Required fields
  // ------------------------------------------------------------------

  /** Merging keeps required fields present, also when one login is merged over another. */
  lemma MergeInitialized(a: Header, b: Header)
    requires a.login.Some? ==> a.login.value.username.Some? && a.login.value.password.Some?
    requires b.login.Some? ==> b.login.value.username.Some? && b.login.value.password.Some?
    ensures var r := MergeHeader(a, b);
            r.login.Some? ==> r.login.value.username.Some? && r.login.value.password.Some?
  {
  }
}
