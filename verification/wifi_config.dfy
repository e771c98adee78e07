/**
 * The configuration portal (`wifi_config`): a soft access point serves a
 * form behind HTTP basic authentication. `/save` copies the submitted
 * fields into the configuration, repairs the ones the uplink cannot work
 * with, and writes all of them to the "cfg" namespace of the `Preferences`
 * store, where the uplink reads the server address and the pass.
 *
 * The static `prefs` and `cfg` of the firmware are the fields of a
 * `Portal`; a form POST is its arguments and the credentials the browser
 * presented.
 */
module WifiConfig {
  import opened Common
  import opened Text
  import opened Prefs
  import Uplink

  const MaxLocation: nat := 500
  const MinPassLength: nat := 8
  const DefaultAdmin: string := "admin"
  const DefaultLocation: string := ""

  /** `struct Config`. */
  datatype Config = Config(serverHost: string, serverPort: u16, location: string,
                           cryptoPass: string, adminLogin: string, adminPass: string)

  /** The zero-initialised static `cfg`, before `WifiConfigStart` loads it. */
  const Blank: Config := Config("", 0, "", "", "", "")

  /** The arguments of a form POST: `web.hasArg(k)` is `k in args` and
      `web.arg(k)` is `args[k]`. */
  type Args = map<string, string>

  /** `(uint16_t)web.arg(..).toInt()`: the parsed `long` cut to its low 16
      bits (two's complement, so -1 becomes 65535). */
  function PortArg(s: string): u16
  {
    ToInt(s) % 0x1_0000
  }

  /** `if (location.length() > 500) location = location.substring(0, 500)`. */
  function CapLocation(s: string): string
  {
    if |s| > MaxLocation then Substring(s, 0, MaxLocation) else s
  }

  /** `loadConfig` on values: every field with its default, `location`
      capped. */
  function Loaded(st: Store): Config
  {
    Config(GetString(st, "serverHost", Uplink.DefaultHost), GetUShort(st, "serverPort", Uplink.DefaultPort),
           CapLocation(GetString(st, "location", DefaultLocation)), GetString(st, "cryptoPass", Uplink.DefaultPass),
           GetString(st, "adminLogin", DefaultAdmin), GetString(st, "adminPass", DefaultAdmin))
  }

  /** `saveConfig` on values: the six keys, in the firmware's order. */
  function Saved(st: Store, c: Config): Store
  {
    st["serverHost" := Str(c.serverHost)]["serverPort" := UShort(c.serverPort)]["location" := Str(c.location)]
      ["cryptoPass" := Str(c.cryptoPass)]["adminLogin" := Str(c.adminLogin)]["adminPass" := Str(c.adminPass)]
  }

  /** The copy step of `/save`: each argument that is present replaces its
      field. */
  function WithArgs(c: Config, args: Args): Config
  {
    Config(if "serverHost" in args then args["serverHost"] else c.serverHost,
           if "serverPort" in args then PortArg(args["serverPort"]) else c.serverPort,
           if "location" in args then args["location"] else c.location,
           if "cryptoPass" in args then args["cryptoPass"] else c.cryptoPass,
           if "adminLogin" in args then args["adminLogin"] else c.adminLogin,
           if "adminPass" in args then args["adminPass"] else c.adminPass)
  }

  /** The repair step of `/save`. */
  function Sanitized(c: Config): Config
  {
    Config(if |c.serverHost| == 0 then Uplink.DefaultHost else c.serverHost,
           if c.serverPort == 0 then Uplink.DefaultPort else c.serverPort,
           CapLocation(c.location),
           if |c.cryptoPass| < MinPassLength then Uplink.DefaultPass else c.cryptoPass,
           c.adminLogin, c.adminPass)
  }

  /** What `/save` guarantees: a bounded location, a pass of at least eight
      characters, a port and a host. */
  predicate WellFormed(c: Config)
  {
    |c.location| <= MaxLocation && |c.cryptoPass| >= MinPassLength && c.serverPort != 0 && |c.serverHost| > 0
  }

  /** The merge of `WifiConfigStart`: the loaded value for every key the
      store holds, the initial value for every other. */
  function Merged(st: Store, initial: Config): Config
  {
    var c := Loaded(st);
    Config(if "serverHost" in st then c.serverHost else initial.serverHost,
           if "serverPort" in st then c.serverPort else initial.serverPort,
           if "location" in st then c.location else initial.location,
           if "cryptoPass" in st then c.cryptoPass else initial.cryptoPass,
           if "adminLogin" in st then c.adminLogin else initial.adminLogin,
           if "adminPass" in st then c.adminPass else initial.adminPass)
  }

  /** The credentials `requireAuth` checks: the stored ones, "admin" for an
      empty one. */
  function AuthLogin(c: Config): string
  {
    if |c.adminLogin| > 0 then c.adminLogin else DefaultAdmin
  }

  function AuthPass(c: Config): string
  {
    if |c.adminPass| > 0 then c.adminPass else DefaultAdmin
  }

  /** `web.authenticate(u, p)` for a request with basic credentials. */
  predicate Authorized(c: Config, user: string, password: string)
  {
    user == AuthLogin(c) && password == AuthPass(c)
  }

  const StatusOk: int := 200
  const StatusUnauthorized: int := 401

  class Portal {
    var prefs: Store
    var cfg: Config

    /** The store as found at boot, and the blank static `cfg`. */
    constructor (st: Store)
      ensures prefs == st && cfg == Blank
    {
      prefs := st;
      cfg := Blank;
    }

    /** `loadConfig`. */
    method LoadConfig()
      modifies this
      ensures prefs == old(prefs) && cfg == Loaded(prefs)
    {
      cfg := cfg.(serverHost := GetString(prefs, "serverHost", Uplink.DefaultHost));
      cfg := cfg.(serverPort := GetUShort(prefs, "serverPort", Uplink.DefaultPort));
      cfg := cfg.(location := GetString(prefs, "location", DefaultLocation));
      if |cfg.location| > MaxLocation {
        cfg := cfg.(location := Substring(cfg.location, 0, MaxLocation));
      }
      cfg := cfg.(cryptoPass := GetString(prefs, "cryptoPass", Uplink.DefaultPass));
      cfg := cfg.(adminLogin := GetString(prefs, "adminLogin", DefaultAdmin));
      cfg := cfg.(adminPass := GetString(prefs, "adminPass", DefaultAdmin));
    }

    /** `saveConfig`. */
    method SaveConfig()
      modifies this
      ensures cfg == old(cfg) && prefs == Saved(old(prefs), cfg)
    {
      prefs := prefs["serverHost" := Str(cfg.serverHost)];
      prefs := prefs["serverPort" := UShort(cfg.serverPort)];
      prefs := prefs["location" := Str(cfg.location)];
      prefs := prefs["cryptoPass" := Str(cfg.cryptoPass)];
      prefs := prefs["adminLogin" := Str(cfg.adminLogin)];
      prefs := prefs["adminPass" := Str(cfg.adminPass)];
    }

    /** `requireAuth`: the credentials fall back to "admin" when empty. */
    method RequireAuth(user: string, password: string) returns (ok: bool)
      ensures ok == Authorized(cfg, user, password)
    {
      var u := if |cfg.adminLogin| > 0 then cfg.adminLogin else DefaultAdmin;
      var p := if |cfg.adminPass| > 0 then cfg.adminPass else DefaultAdmin;
      ok := user == u && password == p;
    }

    /** The copy step of `/save`. */
    method ApplyArgs(args: Args)
      modifies this
      ensures prefs == old(prefs) && cfg == WithArgs(old(cfg), args)
    {
      var c := cfg;
      if "serverHost" in args {
        c := c.(serverHost := args["serverHost"]);
      }
      if "serverPort" in args {
        c := c.(serverPort := PortArg(args["serverPort"]));
      }
      if "location" in args {
        c := c.(location := args["location"]);
      }
      if "cryptoPass" in args {
        c := c.(cryptoPass := args["cryptoPass"]);
      }
      if "adminLogin" in args {
        c := c.(adminLogin := args["adminLogin"]);
      }
      if "adminPass" in args {
        c := c.(adminPass := args["adminPass"]);
      }
      cfg := c;
    }

    /** The repair step of `/save`. */
    method Sanitize()
      modifies this
      ensures prefs == old(prefs) && cfg == Sanitized(old(cfg))
    {
      if |cfg.location| > MaxLocation {
        cfg := cfg.(location := Substring(cfg.location, 0, MaxLocation));
      }
      if |cfg.cryptoPass| < MinPassLength {
        cfg := cfg.(cryptoPass := Uplink.DefaultPass);
      }
      if cfg.serverPort == 0 {
        cfg := cfg.(serverPort := Uplink.DefaultPort);
      }
      if |cfg.serverHost| == 0 {
        cfg := cfg.(serverHost := Uplink.DefaultHost);
      }
    }

    /** The `/save` handler: refused with 401 and no change without the
        credentials; otherwise copy, repair, store, and answer 200. */
    method HandleSave(args: Args, user: string, password: string) returns (status: int)
      modifies this
      ensures !Authorized(old(cfg), user, password) ==>
        status == StatusUnauthorized && cfg == old(cfg) && prefs == old(prefs)
      ensures Authorized(old(cfg), user, password) ==>
        status == StatusOk && cfg == Sanitized(WithArgs(old(cfg), args)) && prefs == Saved(old(prefs), cfg)
    {
      var ok := RequireAuth(user, password);
      if !ok {
        return StatusUnauthorized;
      }
      ApplyArgs(args);
      Sanitize();
      SaveConfig();
      return StatusOk;
    }

    /** `WifiConfigStart(initialCfg)`: load, take the initial value for
        every key the store lacks, and store the result. */
    method Start(initial: Config)
      modifies this
      ensures cfg == Merged(old(prefs), initial) && prefs == Saved(old(prefs), cfg)
    {
      LoadConfig();
      if "serverHost" !in prefs {
        cfg := cfg.(serverHost := initial.serverHost);
      }
      if "serverPort" !in prefs {
        cfg := cfg.(serverPort := initial.serverPort);
      }
      if "location" !in prefs {
        cfg := cfg.(location := initial.location);
      }
      if "cryptoPass" !in prefs {
        cfg := cfg.(cryptoPass := initial.cryptoPass);
      }
      if "adminLogin" !in prefs {
        cfg := cfg.(adminLogin := initial.adminLogin);
      }
      if "adminPass" !in prefs {
        cfg := cfg.(adminPass := initial.adminPass);
      }
      SaveConfig();
    }
  }

  // ---------------------------------------------------------------- properties

  /** The cap keeps at most 500 characters, all of them a prefix of the
      input, and cuts only a longer input. */
  lemma {:induction false} CapLocationPrefix(s: string)
    ensures |CapLocation(s)| <= MaxLocation
    ensures CapLocation(s) == s[..|CapLocation(s)|]
    ensures |s| <= MaxLocation <==> CapLocation(s) == s
    ensures |s| > MaxLocation ==> |CapLocation(s)| == MaxLocation
  {
    if |s| > MaxLocation {
      assert CapLocation(s) == s[0..MaxLocation];
    }
  }

  /** `/save` always leaves a configuration the uplink can use. */
  lemma {:induction false} SanitizedWellFormed(c: Config)
    ensures WellFormed(Sanitized(c))
  {
    CapLocationPrefix(c.location);
  }

  /** The repair changes a field only when it is bad, and then to the
      default: a well-formed configuration is left alone. */
  lemma {:induction false} SanitizedChangesOnlyBadFields(c: Config)
    ensures var r := Sanitized(c);
      (r.serverHost == c.serverHost <==> |c.serverHost| > 0)
      && (r.serverPort == c.serverPort <==> c.serverPort != 0)
      && (r.cryptoPass == c.cryptoPass <==> |c.cryptoPass| >= MinPassLength)
      && (r.location == c.location <==> |c.location| <= MaxLocation)
      && r.adminLogin == c.adminLogin && r.adminPass == c.adminPass
    ensures WellFormed(c) <==> Sanitized(c) == c
  {
    CapLocationPrefix(c.location);
    assert |Uplink.DefaultPass| == 8;
    assert |Uplink.DefaultHost| > 0;
  }

  /** Repairing twice is repairing once. */
  lemma {:induction false} SanitizedIdempotent(c: Config)
    ensures Sanitized(Sanitized(c)) == Sanitized(c)
  {
    SanitizedWellFormed(c);
    SanitizedChangesOnlyBadFields(Sanitized(c));
  }

  /** A field without its argument keeps its value; one with an argument
      takes it (the port through the 16-bit cast). */
  lemma {:induction false} WithArgsFieldByField(c: Config, args: Args)
    ensures var r := WithArgs(c, args);
      ("serverHost" in args ==> r.serverHost == args["serverHost"]) && ("serverHost" !in args ==> r.serverHost == c.serverHost)
      && ("serverPort" in args ==> r.serverPort == PortArg(args["serverPort"])) && ("serverPort" !in args ==> r.serverPort == c.serverPort)
      && ("location" in args ==> r.location == args["location"]) && ("location" !in args ==> r.location == c.location)
      && ("cryptoPass" in args ==> r.cryptoPass == args["cryptoPass"]) && ("cryptoPass" !in args ==> r.cryptoPass == c.cryptoPass)
      && ("adminLogin" in args ==> r.adminLogin == args["adminLogin"]) && ("adminLogin" !in args ==> r.adminLogin == c.adminLogin)
      && ("adminPass" in args ==> r.adminPass == args["adminPass"]) && ("adminPass" !in args ==> r.adminPass == c.adminPass)
    ensures args == map[] ==> WithArgs(c, args) == c
  {
  }

  /** The port the form shows (`String(cfg.serverPort)`) reads back as the
      same port; a larger number keeps its low 16 bits. */
  lemma {:induction false} PortArgOfDec(n: nat)
    requires n <= I32Max
    ensures PortArg(NatToDec(n)) == n % 0x1_0000
    ensures n < 0x1_0000 ==> PortArg(NatToDec(n)) == n
  {
    ToIntOfIntToDec(n);
    assert IntToDec(n) == NatToDec(n);
    SmallMod(n);
  }

  /** A negative number wraps: "-1" is port 65535. */
  lemma {:induction false} PortArgOfNegative(n: nat)
    requires 0 < n <= 0x1_0000
    ensures PortArg("-" + NatToDec(n)) == 0x1_0000 - n
  {
    var m: int := 0 - n;
    ToIntOfIntToDec(m);
    assert IntToDec(m) == "-" + NatToDec(n);
    PortArgOfValue("-" + NatToDec(n), m);
    NegativeMod(n);
  }

  lemma {:induction false} PortArgOfValue(s: string, v: int)
    requires ToInt(s) == v
    ensures PortArg(s) == v % 0x1_0000
  {
  }

  lemma {:induction false} SmallMod(n: nat)
    ensures n < 0x1_0000 ==> n % 0x1_0000 == n
  {
  }

  lemma {:induction false} NegativeMod(n: nat)
    requires 0 < n <= 0x1_0000
    ensures (0 - n) % 0x1_0000 == 0x1_0000 - n
  {
  }

  /** The store `saveConfig` writes reads back, through `loadConfig`, as
      the configuration saved, when its location fits. */
  lemma {:induction false} LoadedOfSaved(st: Store, c: Config)
    requires |c.location| <= MaxLocation
    ensures Loaded(Saved(st, c)) == c
  {
    CapLocationPrefix(c.location);
  }

  /** `loadConfig` never yields a location longer than 500. */
  lemma {:induction false} LoadedLocationCapped(st: Store)
    ensures |Loaded(st).location| <= MaxLocation
  {
    CapLocationPrefix(GetString(st, "location", DefaultLocation));
  }

  /** The merge takes the initial value exactly for the missing keys. */
  lemma {:induction false} MergedKeepsExistingKeys(st: Store, initial: Config)
    ensures var c, l := Merged(st, initial), Loaded(st);
      ("serverHost" in st ==> c.serverHost == l.serverHost) && ("serverHost" !in st ==> c.serverHost == initial.serverHost)
      && ("serverPort" in st ==> c.serverPort == l.serverPort) && ("serverPort" !in st ==> c.serverPort == initial.serverPort)
      && ("location" in st ==> c.location == l.location) && ("location" !in st ==> c.location == initial.location)
      && ("cryptoPass" in st ==> c.cryptoPass == l.cryptoPass) && ("cryptoPass" !in st ==> c.cryptoPass == initial.cryptoPass)
      && ("adminLogin" in st ==> c.adminLogin == l.adminLogin) && ("adminLogin" !in st ==> c.adminLogin == initial.adminLogin)
      && ("adminPass" in st ==> c.adminPass == l.adminPass) && ("adminPass" !in st ==> c.adminPass == initial.adminPass)
  {
  }

  /** A stored string that `WifiConfigStart` reads back is written back
      unchanged: the merge does not overwrite existing keys. */
  lemma {:induction false} StartKeepsStoredStrings(st: Store, initial: Config)
    ensures var out := Saved(st, Merged(st, initial));
      ("serverHost" in st && st["serverHost"].Str? ==> out["serverHost"] == st["serverHost"])
      && ("serverPort" in st && st["serverPort"].UShort? ==> out["serverPort"] == st["serverPort"])
      && ("cryptoPass" in st && st["cryptoPass"].Str? ==> out["cryptoPass"] == st["cryptoPass"])
      && ("adminLogin" in st && st["adminLogin"].Str? ==> out["adminLogin"] == st["adminLogin"])
      && ("adminPass" in st && st["adminPass"].Str? ==> out["adminPass"] == st["adminPass"])
      && ("location" in st && st["location"].Str? && |st["location"].s| <= MaxLocation
          ==> out["location"] == st["location"])
  {
    CapLocationPrefix(GetString(st, "location", DefaultLocation));
  }

  /** `WifiConfigStart` does not repair: when both the stored values and
      the initial configuration are well formed, so is the result; the
      repair of `/save` is what makes the stored values well formed. */
  lemma {:induction false} StartKeepsWellFormed(st: Store, initial: Config)
    requires WellFormed(Loaded(st)) && WellFormed(initial)
    ensures WellFormed(Merged(st, initial))
  {
  }

  /** The fallback means an empty login or password never opens the
      portal, and an empty stored one is replaced by "admin". */
  lemma {:induction false} AuthNeverEmpty(c: Config, user: string, password: string)
    ensures Authorized(c, user, password) ==> user != "" && password != ""
    ensures c.adminLogin == "" ==> (Authorized(c, user, password) <==> user == DefaultAdmin && password == AuthPass(c))
    ensures c.adminPass == "" ==> (Authorized(c, user, password) <==> user == AuthLogin(c) && password == DefaultAdmin)
    ensures c.adminLogin != "" && c.adminPass != "" ==>
      (Authorized(c, user, password) <==> user == c.adminLogin && password == c.adminPass)
  {
  }

  /** After `/save` the uplink, reading the same namespace, gets the saved
      host, port and pass: a pass of at least eight characters, a host and
      a port that is not 0. */
  lemma {:induction false} SaveFeedsUplink(st: Store, c: Config, args: Args)
    ensures var saved := Sanitized(WithArgs(c, args));
      var u := Uplink.LoadUplinkCfg(Saved(st, saved));
      u == Uplink.UplinkCfg(saved.serverHost, saved.serverPort, saved.cryptoPass)
      && |u.pass| >= MinPassLength && |u.host| > 0 && u.port != 0
  {
    SanitizedWellFormed(WithArgs(c, args));
  }
}
