/** The connection settings: their names, the values each accepts, and the printer
    that writes them as a connection string. */
module Settings {

  import opened Common
  import opened Text
  import opened Scanner

  datatype Key =
    | Dsn | Driver | Uid | Pwd | AccessKeyId | SecretKey | SessionToken | ProfileName
    | ReqTimeout | ConnectionTimeout | MaxRetryCountClient | MaxConnections | Endpoint | Region
    | Auth | IdPHost | IdPUserName | IdPPassword | IdPArn | OktaAppId | RoleArn
    | AADAppId | AADClientSecret | AADTenant | LogLevel | LogPath | MaxRowPerPage

  function KeyName(k: Key): string {
    match k
    case Dsn => "dsn"
    case Driver => "driver"
    case Uid => "uid"
    case Pwd => "pwd"
    case AccessKeyId => "accesskeyid"
    case SecretKey => "secretkey"
    case SessionToken => "sessiontoken"
    case ProfileName => "profilename"
    case ReqTimeout => "requesttimeout"
    case ConnectionTimeout => "connectiontimeout"
    case MaxRetryCountClient => "maxretrycountclient"
    case MaxConnections => "maxconnections"
    case Endpoint => "endpointoverride"
    case Region => "region"
    case Auth => "auth"
    case IdPHost => "idphost"
    case IdPUserName => "idpusername"
    case IdPPassword => "idppassword"
    case IdPArn => "idparn"
    case OktaAppId => "oktaapplicationid"
    case RoleArn => "rolearn"
    case AADAppId => "aadapplicationid"
    case AADClientSecret => "aadclientsecret"
    case AADTenant => "aadtenant"
    case LogLevel => "loglevel"
    case LogPath => "logoutput"
    case MaxRowPerPage => "maxrowperpage"
  }

  /** The order in which std::map walks the attribute names. */
  const KEYS: seq<Key> := [
    AADAppId, AADClientSecret, AADTenant, AccessKeyId, Auth, ConnectionTimeout, Driver, Dsn, Endpoint,
    IdPArn, IdPHost, IdPPassword, IdPUserName, LogLevel, LogPath, MaxConnections, MaxRetryCountClient,
    MaxRowPerPage, OktaAppId, ProfileName, Pwd, Region, ReqTimeout, RoleArn, SecretKey, SessionToken, Uid
  ]

  /** The attribute with this name, if there is one. */
  ghost function KeyOf(name: string): (r: Option<Key>)
    ensures r.Some? ==> KeyName(r.value) == name
    ensures r.None? ==> forall k :: KeyName(k) != name
  {
    if exists k :: KeyName(k) == name then
      var k :| KeyName(k) == name;
      Some(k)
    else None
  }

  lemma KeysComplete(k: Key)
    ensures k in KEYS
  {
    match k
    case Dsn => assert KEYS[7] == k;
    case Driver => assert KEYS[6] == k;
    case Uid => assert KEYS[26] == k;
    case Pwd => assert KEYS[20] == k;
    case AccessKeyId => assert KEYS[3] == k;
    case SecretKey => assert KEYS[24] == k;
    case SessionToken => assert KEYS[25] == k;
    case ProfileName => assert KEYS[19] == k;
    case ReqTimeout => assert KEYS[22] == k;
    case ConnectionTimeout => assert KEYS[5] == k;
    case MaxRetryCountClient => assert KEYS[16] == k;
    case MaxConnections => assert KEYS[15] == k;
    case Endpoint => assert KEYS[8] == k;
    case Region => assert KEYS[21] == k;
    case Auth => assert KEYS[4] == k;
    case IdPHost => assert KEYS[10] == k;
    case IdPUserName => assert KEYS[12] == k;
    case IdPPassword => assert KEYS[11] == k;
    case IdPArn => assert KEYS[9] == k;
    case OktaAppId => assert KEYS[18] == k;
    case RoleArn => assert KEYS[23] == k;
    case AADAppId => assert KEYS[0] == k;
    case AADClientSecret => assert KEYS[1] == k;
    case AADTenant => assert KEYS[2] == k;
    case LogLevel => assert KEYS[13] == k;
    case LogPath => assert KEYS[14] == k;
    case MaxRowPerPage => assert KEYS[17] == k;
  }

  /** Byte-wise string order with the first difference at `at`. */
  predicate Before(a: string, b: string, at: nat) {
    at < |a| && at < |b| && a[..at] == b[..at] && a[at] < b[at]
  }

  const DIFFERENCES: seq<nat> := [3, 3, 1, 1, 0, 0, 1, 0, 0, 3, 3, 3, 0, 3, 0, 3, 4, 0, 0, 1, 0, 2, 1, 0, 2, 0]

  lemma KeysSortedA(i: nat)
    requires i < 5
    ensures Before(KeyName(KEYS[i]), KeyName(KEYS[i + 1]), DIFFERENCES[i])
  {
  }

  lemma KeysSortedB(i: nat)
    requires 5 <= i < 9
    ensures Before(KeyName(KEYS[i]), KeyName(KEYS[i + 1]), DIFFERENCES[i])
  {
  }

  lemma KeysSortedC(i: nat)
    requires 9 <= i < 12
    ensures Before(KeyName(KEYS[i]), KeyName(KEYS[i + 1]), DIFFERENCES[i])
  {
  }

  lemma KeysSortedD(i: nat)
    requires 12 <= i < 16
    ensures Before(KeyName(KEYS[i]), KeyName(KEYS[i + 1]), DIFFERENCES[i])
  {
  }

  lemma KeysSortedE(i: nat)
    requires 16 <= i < 21
    ensures Before(KeyName(KEYS[i]), KeyName(KEYS[i + 1]), DIFFERENCES[i])
  {
  }

  lemma KeysSortedF(i: nat)
    requires 21 <= i < 26
    ensures Before(KeyName(KEYS[i]), KeyName(KEYS[i + 1]), DIFFERENCES[i])
  {
  }

  /** The walk is in strictly increasing name order, so names are distinct. */
  lemma {:induction false} KeysSorted(i: nat, j: nat) returns (at: nat)
    requires i < j < |KEYS|
    ensures Before(KeyName(KEYS[i]), KeyName(KEYS[j]), at)
    decreases j - i
  {
    if i < 5 {
      KeysSortedA(i);
    } else if i < 9 {
      KeysSortedB(i);
    } else if i < 12 {
      KeysSortedC(i);
    } else if i < 16 {
      KeysSortedD(i);
    } else if i < 21 {
      KeysSortedE(i);
    } else {
      KeysSortedF(i);
    }
    at := DIFFERENCES[i];
    if i + 1 < j {
      var rest := KeysSorted(i + 1, j);
      at := BeforeTransitive(KeyName(KEYS[i]), KeyName(KEYS[i + 1]), KeyName(KEYS[j]), at, rest);
    }
  }

  lemma BeforeTransitive(a: string, b: string, c: string, p: nat, q: nat) returns (at: nat)
    requires Before(a, b, p) && Before(b, c, q)
    ensures Before(a, c, at)
  {
    at := if p < q then p else q;
    assert b[..p][..at] == b[..at] == b[..q][..at];
    assert a[..p][..at] == a[..at];
    assert c[..q][..at] == c[..at];
    assert p < q ==> c[p] == c[..q][p] == b[..q][p] == b[p];
    assert q < p ==> a[q] == a[..p][q] == b[..p][q] == b[q];
  }

  lemma BeforeDiffers(a: string, b: string, at: nat)
    requires Before(a, b, at)
    ensures a != b
  {
  }

  lemma IndexOf(k: Key) returns (i: nat)
    ensures i < |KEYS| && KEYS[i] == k
  {
    KeysComplete(k);
    i :| 0 <= i < |KEYS| && KEYS[i] == k;
  }

  lemma NamesDiffer(k: Key, l: Key)
    requires KeyName(k) == KeyName(l)
    ensures k == l
  {
    var i := IndexOf(k);
    var j := IndexOf(l);
    if i < j {
      var at := KeysSorted(i, j);
      BeforeDiffers(KeyName(k), KeyName(l), at);
    } else if j < i {
      var at := KeysSorted(j, i);
      BeforeDiffers(KeyName(l), KeyName(k), at);
    }
  }

  lemma KeyFound(k: Key)
    ensures KeyOf(KeyName(k)) == Some(k)
  {
    NamesDiffer(k, KeyOf(KeyName(k)).value);
  }

  lemma NoSuchKey(name: string)
    requires forall j | 0 <= j < |KEYS| :: KeyName(KEYS[j]) != name
    ensures KeyOf(name) == None
  {
    if KeyOf(name).Some? {
      KeysComplete(KeyOf(name).value);
    }
  }

  // ---- Which values an attribute accepts ----

  datatype AuthType = AwsProfile | Iam | Aad | Okta
  datatype Level = Off | Error | Warning | Info | Debug | Unknown
  datatype Value = Text(text: string) | Number(n: int) | AuthValue(auth: AuthType) | LevelValue(level: Level)
  datatype Kind = TextKind | PathKind | NumberKind(least: nat) | AuthKind | LevelKind

  function KindOf(k: Key): Kind {
    if k.ReqTimeout? || k.ConnectionTimeout? || k.MaxConnections? then NumberKind(1)
    else if k.MaxRetryCountClient? || k.MaxRowPerPage? then NumberKind(0)
    else if k.Auth? then AuthKind
    else if k.LogLevel? then LevelKind
    else if k.LogPath? then PathKind
    else TextKind
  }

  /** Explicit settings only: a key is in the map when its setting was set. */
  type Assignment = map<Key, Value>

  const UINT32_MAX: nat := 0xFFFF_FFFF
  const INT32_MAX: nat := 0x7FFF_FFFF
  /** sizeof(std::string); longer digit strings are refused before they are read. */
  const STRING_SIZE: nat := 32

  /** The uint32_t passed to a setter that takes an int32_t. */
  function ToInt32(n: nat): int
    requires n <= UINT32_MAX
  {
    if n <= INT32_MAX then n else n - UINT32_MAX - 1
  }

  function NumberFrom(v: string, least: nat): Option<Value> {
    if v == "" || !AllDigits(v) || |v| >= STRING_SIZE then None
    else if ToNat(v) < least || ToNat(v) > UINT32_MAX then None
    else Some(Number(ToInt32(ToNat(v))))
  }

  function LowerChar(c: char): char {
    if 'A' <= c <= 'Z' then (c as int + 32) as char else c
  }

  function ToLower(s: string): (r: string)
    ensures |r| == |s| && forall i | 0 <= i < |s| :: r[i] == LowerChar(s[i])
  {
    if s == [] then [] else [LowerChar(s[0])] + ToLower(s[1..])
  }

  function AuthFrom(v: string): Option<Value> {
    var lower := Trim(ToLower(v));
    if lower == "aws_profile" then Some(AuthValue(AwsProfile))
    else if lower == "iam" then Some(AuthValue(Iam))
    else if lower == "aad" then Some(AuthValue(Aad))
    else if lower == "okta" then Some(AuthValue(Okta))
    else None
  }

  function LevelFrom(v: string): Option<Value> {
    var t := Trim(v);
    if t == "4" then Some(LevelValue(Debug))
    else if t == "3" then Some(LevelValue(Info))
    else if t == "2" then Some(LevelValue(Warning))
    else if t == "1" then Some(LevelValue(Error))
    else if t == "0" then Some(LevelValue(Off))
    else None
  }

  /** The value a setting takes from text, or None when the text is ignored. `dirs`
      are the existing directories. */
  function Accepted(dirs: set<string>, k: Key, v: string): Option<Value> {
    match KindOf(k)
    case TextKind => Some(Text(v))
    case PathKind => if v in dirs then Some(Text(v)) else None
    case NumberKind(least) => NumberFrom(v, least)
    case AuthKind => AuthFrom(v)
    case LevelKind => LevelFrom(v)
  }

  // ---- Printing ----

  function AuthText(a: AuthType): string {
    match a
    case AwsProfile => "aws_profile"
    case Iam => "iam"
    case Aad => "aad"
    case Okta => "okta"
  }

  function LevelText(l: Level): string {
    match l
    case Debug => "4"
    case Info => "3"
    case Warning => "2"
    case Error => "1"
    case Off => "0"
    case Unknown => "unknown"
  }

  function Render(v: Value): string {
    match v
    case Text(s) => s
    case Number(n) => IntText(n)
    case AuthValue(a) => AuthText(a)
    case LevelValue(l) => LevelText(l)
  }

  /** Values with a space are wrapped in braces. */
  function Quote(s: string): string {
    if ' ' in s then "{" + s + "}" else s
  }

  function Entry(k: Key, v: Value): string {
    KeyName(k) + "=" + Quote(Render(v))
  }

  predicate Printed(m: Assignment, k: Key) {
    k in m && Render(m[k]) != ""
  }

  /** The connection string of the settings among `keys`, in that order. */
  function Print(m: Assignment, keys: seq<Key>): string
    decreases |keys|
  {
    if keys == [] then ""
    else
      var k := keys[|keys| - 1];
      Print(m, keys[..|keys| - 1]) + (if Printed(m, k) then Entry(k, m[k]) + ";" else "")
  }

  lemma PrintOneMore(m: Assignment, i: nat)
    requires i < |KEYS|
    ensures Print(m, KEYS[..i + 1])
      == Print(m, KEYS[..i]) + (if Printed(m, KEYS[i]) then Entry(KEYS[i], m[KEYS[i]]) + ";" else "")
  {
    assert KEYS[..i + 1][..i] == KEYS[..i];
  }

  /** Appends one attribute, with braces around a value with a space. */
  method WriteAttribute(buffer: string, name: string, value: string) returns (written: string)
    ensures written == buffer + (name + "=" + Quote(value) + ";")
  {
    if ' ' !in value {
      written := buffer + name + "=" + value + ";";
    } else {
      written := buffer + name + "={" + value + "};";
    }
  }

  class Configuration {
    var settings: Assignment
    /** The directories that exist on disk. */
    const dirs: set<string>

    constructor (dirs: set<string>)
      ensures settings == map[] && this.dirs == dirs
    {
      settings, this.dirs := map[], dirs;
    }

    /** Adds the text of every explicitly set setting to the argument map. */
    method ToMap() returns (res: map<Key, string>)
      ensures res == map k | k in settings :: Render(settings[k])
    {
      res := map[];
      for i := 0 to |KEYS|
        invariant res == map k | k in settings && k in KEYS[..i] :: Render(settings[k])
      {
        var k := KEYS[i];
        assert KEYS[..i + 1] == KEYS[..i] + [k];
        if k in settings {
          res := res[k := Render(settings[k])];
        }
      }
      forall k: Key ensures k in KEYS[..|KEYS|] {
        KeysComplete(k);
      }
    }

    method ToConnectString() returns (buffer: string)
      ensures buffer == Print(settings, KEYS)
    {
      var arguments := ToMap();
      buffer := "";
      for i := 0 to |KEYS|
        invariant buffer == Print(settings, KEYS[..i])
      {
        var key := KEYS[i];
        PrintOneMore(settings, i);
        if key in arguments {
          var value := arguments[key];
          if value == "" {
            continue;
          }
          buffer := WriteAttribute(buffer, KeyName(key), value);
        }
      }
      assert KEYS[..|KEYS|] == KEYS;
    }
  }
}
