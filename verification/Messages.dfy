/** The three messages of packet.proto as values: one record's effect, merging, serialising. */
module Messages {
  import opened Bytes
  import opened WireFormat
  import opened MessageLoop

  datatype Login = Login(
    username: Option<bytes>, password: Option<bytes>, version: Option<int32>, unknown: seq<Field>)
  datatype Connected = Connected(connected: Option<int32>, characterList: Option<bytes>, unknown: seq<Field>)
  datatype Header = Header(
    login: Option<Login>, connected: Option<Connected>, authCode: Option<bytes>, unknown: seq<Field>)

  const NO_LOGIN := Login(None, None, None, [])
  const NO_CONNECTED := Connected(None, None, [])
  const NO_HEADER := Header(None, None, None, [])

  function Or<T>(o: Option<T>, default: T): T {
    match o case Some(x) => x case None => default
  }

  function Later<T>(a: Option<T>, b: Option<T>): Option<T> {
    if b.Some? then b else a
  }

  // ------------------------------------------------------------------
  // One record
  // ------------------------------------------------------------------

  function LoginStep(m: Login, f: Field): Step<Login> {
    match f
    case Field(2, Data(b)) => Next(m.(username := Some(b)))
    case Field(3, Data(b)) => Next(m.(password := Some(b)))
    case Field(4, Varint(v)) => Next(m.(version := Some(VarintToInt32(v))))
    case _ => Next(m.(unknown := m.unknown + [f]))
  }

  /** The string field of a cut-short record is marked present, with the text it had. */
  function LoginTouch(m: Login, tag: uint32): Login {
    if tag == 18 then m.(username := Some(Or(m.username, [])))
    else if tag == 26 then m.(password := Some(Or(m.password, [])))
    else m
  }

  const LOGIN := Codec(LoginStep, LoginTouch)

  function ConnectedStep(m: Connected, f: Field): Step<Connected> {
    match f
    case Field(1, Varint(v)) => Next(m.(connected := Some(VarintToInt32(v))))
    case Field(2, Data(b)) => Next(m.(characterList := Some(b)))
    case _ => Next(m.(unknown := m.unknown + [f]))
  }

  function ConnectedTouch(m: Connected, tag: uint32): Connected {
    if tag == 18 then m.(characterList := Some(Or(m.characterList, []))) else m
  }

  const CONNECTED := Codec(ConnectedStep, ConnectedTouch)

  /** A submessage record is parsed into the submessage present so far. */
  function HeaderStep(m: Header, f: Field): Step<Header> {
    match f
    case Field(1, Data(b)) =>
      (match Loop(LOGIN, Or(m.login, NO_LOGIN), b)
       case Stopped(l, _, AtEnd) => Next(m.(login := Some(l)))
       case o => Broken(m.(login := Some(o.msg))))
    case Field(2, Data(b)) =>
      (match Loop(CONNECTED, Or(m.connected, NO_CONNECTED), b)
       case Stopped(p, _, AtEnd) => Next(m.(connected := Some(p)))
       case o => Broken(m.(connected := Some(o.msg))))
    case Field(3, Data(b)) => Next(m.(authCode := Some(b)))
    case _ => Next(m.(unknown := m.unknown + [f]))
  }

  function HeaderTouch(m: Header, tag: uint32): Header {
    if tag == 10 then m.(login := Some(Or(m.login, NO_LOGIN)))
    else if tag == 18 then m.(connected := Some(Or(m.connected, NO_CONNECTED)))
    else if tag == 26 then m.(authCode := Some(Or(m.authCode, [])))
    else m
  }

  const HEADER := Codec(HeaderStep, HeaderTouch)

  // ------------------------------------------------------------------
  // Merging
  // ------------------------------------------------------------------

  function MergeLogin(a: Login, b: Login): Login {
    Login(Later(a.username, b.username), Later(a.password, b.password), Later(a.version, b.version),
          a.unknown + b.unknown)
  }

  function MergeConnected(a: Connected, b: Connected): Connected {
    Connected(Later(a.connected, b.connected), Later(a.characterList, b.characterList), a.unknown + b.unknown)
  }

  function MergeHeader(a: Header, b: Header): Header {
    Header(
      if b.login.Some? then Some(MergeLogin(Or(a.login, NO_LOGIN), b.login.value)) else a.login,
      if b.connected.Some? then Some(MergeConnected(Or(a.connected, NO_CONNECTED), b.connected.value)) else a.connected,
      Later(a.authCode, b.authCode),
      a.unknown + b.unknown)
  }

  lemma LoginAssociative(a: Login, b: Login, d: Login)
    ensures MergeLogin(MergeLogin(a, b), d) == MergeLogin(a, MergeLogin(b, d))
  {
    assert a.unknown + b.unknown + d.unknown == a.unknown + (b.unknown + d.unknown);
  }

  lemma ConnectedAssociative(a: Connected, b: Connected, d: Connected)
    ensures MergeConnected(MergeConnected(a, b), d) == MergeConnected(a, MergeConnected(b, d))
  {
    assert a.unknown + b.unknown + d.unknown == a.unknown + (b.unknown + d.unknown);
  }

  lemma LoginIdentity(a: Login)
    ensures MergeLogin(a, NO_LOGIN) == a && MergeLogin(NO_LOGIN, a) == a
  {
    assert a.unknown + [] == a.unknown && [] + a.unknown == a.unknown;
  }

  lemma LoginMonoid()
    ensures Monoid(NO_LOGIN, MergeLogin)
  {
    forall a
      ensures MergeLogin(a, NO_LOGIN) == a && MergeLogin(NO_LOGIN, a) == a
    {
      LoginIdentity(a);
    }
    forall a, b, d
      ensures MergeLogin(MergeLogin(a, b), d) == MergeLogin(a, MergeLogin(b, d))
    {
      LoginAssociative(a, b, d);
    }
  }

  lemma ConnectedIdentity(a: Connected)
    ensures MergeConnected(a, NO_CONNECTED) == a && MergeConnected(NO_CONNECTED, a) == a
  {
    assert a.unknown + [] == a.unknown && [] + a.unknown == a.unknown;
  }

  lemma ConnectedMonoid()
    ensures Monoid(NO_CONNECTED, MergeConnected)
  {
    forall a
      ensures MergeConnected(a, NO_CONNECTED) == a && MergeConnected(NO_CONNECTED, a) == a
    {
      ConnectedIdentity(a);
    }
    forall a, b, d
      ensures MergeConnected(MergeConnected(a, b), d) == MergeConnected(a, MergeConnected(b, d))
    {
      ConnectedAssociative(a, b, d);
    }
  }

  lemma HeaderAssociative(a: Header, b: Header, d: Header)
    ensures MergeHeader(MergeHeader(a, b), d) == MergeHeader(a, MergeHeader(b, d))
  {
    LoginMonoid();
    ConnectedMonoid();
    assert a.unknown + b.unknown + d.unknown == a.unknown + (b.unknown + d.unknown);
    if b.login.Some? && d.login.Some? {
      var la := Or(a.login, NO_LOGIN);
      assert MergeLogin(MergeLogin(la, b.login.value), d.login.value)
          == MergeLogin(la, MergeLogin(b.login.value, d.login.value));
    }
    if b.connected.Some? && d.connected.Some? {
      var ca := Or(a.connected, NO_CONNECTED);
      assert MergeConnected(MergeConnected(ca, b.connected.value), d.connected.value)
          == MergeConnected(ca, MergeConnected(b.connected.value, d.connected.value));
    }
    if b.login.None? && d.login.Some? {
      assert MergeLogin(NO_LOGIN, d.login.value) == d.login.value;
    }
    if b.connected.None? && d.connected.Some? {
      assert MergeConnected(NO_CONNECTED, d.connected.value) == d.connected.value;
    }
  }

  lemma HeaderIdentity(a: Header)
    ensures MergeHeader(a, NO_HEADER) == a && MergeHeader(NO_HEADER, a) == a
  {
    assert a.unknown + [] == a.unknown && [] + a.unknown == a.unknown;
    if a.login.Some? { LoginIdentity(a.login.value); }
    if a.connected.Some? { ConnectedIdentity(a.connected.value); }
  }

  /** MergeFrom is associative and a fresh header is its two-sided identity. */
  lemma HeaderMonoid()
    ensures Monoid(NO_HEADER, MergeHeader)
  {
    forall a
      ensures MergeHeader(a, NO_HEADER) == a && MergeHeader(NO_HEADER, a) == a
    {
      HeaderIdentity(a);
    }
    forall a, b, d
      ensures MergeHeader(MergeHeader(a, b), d) == MergeHeader(a, MergeHeader(b, d))
    {
      HeaderAssociative(a, b, d);
    }
  }

  // ------------------------------------------------------------------
  // Parsing merges
  // ------------------------------------------------------------------

  lemma LoginStepMerges()
    ensures StepMerges(LOGIN, NO_LOGIN, MergeLogin)
  {
    forall m: Login, f: Field
      ensures RecordMerges(LOGIN, NO_LOGIN, MergeLogin, m, f)
    {
      assert m.unknown + ([] + [f]) == m.unknown + [f];
      assert m.unknown + [] == m.unknown;
    }
  }

  lemma ConnectedStepMerges()
    ensures StepMerges(CONNECTED, NO_CONNECTED, MergeConnected)
  {
    forall m: Connected, f: Field
      ensures RecordMerges(CONNECTED, NO_CONNECTED, MergeConnected, m, f)
    {
      assert m.unknown + ([] + [f]) == m.unknown + [f];
      assert m.unknown + [] == m.unknown;
    }
  }

  lemma HeaderStepMerges()
    ensures StepMerges(HEADER, NO_HEADER, MergeHeader)
  {
    LoginMonoid();
    ConnectedMonoid();
    LoginStepMerges();
    ConnectedStepMerges();
    forall m: Header, f: Field
      ensures RecordMerges(HEADER, NO_HEADER, MergeHeader, m, f)
    {
      assert m.unknown + ([] + [f]) == m.unknown + [f];
      assert m.unknown + [] == m.unknown;
      if f.val.Data? {
        ParseMerges(LOGIN, NO_LOGIN, MergeLogin, Or(m.login, NO_LOGIN), f.val.b);
        ParseMerges(CONNECTED, NO_CONNECTED, MergeConnected, Or(m.connected, NO_CONNECTED), f.val.b);
      }
    }
  }

  /** Parsing into m is parsing from scratch and then merging, for every input that is a complete message. */
  lemma HeaderParseMerges(m: Header, s: bytes)
    ensures Parse(HEADER, m, s) == Merged(MergeHeader, m, Parse(HEADER, NO_HEADER, s))
  {
    HeaderMonoid();
    HeaderStepMerges();
    ParseMerges(HEADER, NO_HEADER, MergeHeader, m, s);
  }

  /** Parsing a concatenation is merging the two parses. */
  lemma HeaderConcatMerges(a: bytes, b: bytes)
    requires Parse(HEADER, NO_HEADER, a).Some?
    ensures Parse(HEADER, NO_HEADER, a + b)
         == Merged(MergeHeader, Parse(HEADER, NO_HEADER, a).value, Parse(HEADER, NO_HEADER, b))
  {
    HeaderMonoid();
    HeaderStepMerges();
    ParseConcatMerges(HEADER, NO_HEADER, MergeHeader, a, b);
  }
}
