/** The security-audit panel: three switches for the server's settings, and
    a verdict that is "secure" only when all three are set right. */
module TabSecurity {
  /** A setting of the three switches. */
  datatype Config = Config(useHttps: bool, secretsInPayload: bool, shortExpiry: bool)

  datatype Flag = Https | SecretsInPayload | ShortExpiry

  /** The switches as the panel first shows them: plain HTTP, secrets in
      the payload, no short expiry. */
  const InitialConfig: Config := Config(false, true, false)

  /** `isSecure`: HTTPS on, no secrets in the payload, short expiry on. */
  predicate Secure(c: Config) {
    c.useHttps && !c.secretsInPayload && c.shortExpiry
  }

  function Get(c: Config, f: Flag): bool {
    match f
    case Https => c.useHttps
    case SecretsInPayload => c.secretsInPayload
    case ShortExpiry => c.shortExpiry
  }

  /** Flipping one switch: that flag changes and the other two do not. */
  function Toggle(c: Config, f: Flag): (r: Config)
    ensures Get(r, f) == !Get(c, f)
    ensures forall g :: g != f ==> Get(r, g) == Get(c, g)
  {
    match f
    case Https => c.(useHttps := !c.useHttps)
    case SecretsInPayload => c.(secretsInPayload := !c.secretsInPayload)
    case ShortExpiry => c.(shortExpiry := !c.shortExpiry)
  }

  /** Flipping the same switch twice restores the setting. */
  lemma ToggleTwice(c: Config, f: Flag)
    ensures Toggle(Toggle(c, f), f) == c
  {
  }

  /** The one setting the verdict accepts. */
  const SecureConfig: Config := Config(true, false, true)

  /** Exactly one of the eight settings is secure. */
  lemma SecureIsUnique(c: Config)
    ensures Secure(c) <==> c == SecureConfig
  {
  }

  /** How many switches are set wrong. */
  function WrongSwitches(c: Config): (k: nat)
    ensures k <= 3
    ensures k == 0 <==> Secure(c)
  {
    (if c.useHttps then 0 else 1) + (if c.secretsInPayload then 1 else 0) + (if c.shortExpiry then 0 else 1)
  }

  /** Each click changes the number of wrong switches by exactly one, so
      the initial setting, with all three wrong, needs three clicks at
      least. */
  lemma ToggleMovesByOne(c: Config, f: Flag)
    ensures WrongSwitches(Toggle(c, f)) == WrongSwitches(c) + 1 || WrongSwitches(Toggle(c, f)) + 1 == WrongSwitches(c)
  {
  }

  lemma InitialAllWrong()
    ensures WrongSwitches(InitialConfig) == 3 && !Secure(InitialConfig)
  {
  }

  /** The panel's state: the three switches. */
  class SecurityAudit {
    var useHttps: bool
    var secretsInPayload: bool
    var shortExpiry: bool

    function Current(): Config
      reads this
    {
      Config(useHttps, secretsInPayload, shortExpiry)
    }

    /** The verdict badge. */
    function IsSecure(): (b: bool)
      reads this
      ensures b <==> Current() == SecureConfig
    {
      SecureIsUnique(Current());
      Secure(Current())
    }

    constructor()
      ensures Current() == InitialConfig
    {
      useHttps := false;
      secretsInPayload := true;
      shortExpiry := false;
    }

    method ToggleHttps()
      modifies this
      ensures Current() == Toggle(old(Current()), Https)
    {
      useHttps := !useHttps;
    }

    method ToggleSecretsInPayload()
      modifies this
      ensures Current() == Toggle(old(Current()), SecretsInPayload)
    {
      secretsInPayload := !secretsInPayload;
    }

    method ToggleShortExpiry()
      modifies this
      ensures Current() == Toggle(old(Current()), ShortExpiry)
    {
      shortExpiry := !shortExpiry;
    }
  }

  /** Fixing the three settings, one click each, makes the configuration
      secure; the verdict before was insecure. */
  method HardenScenario() returns (before: bool, after: bool)
    ensures !before && after
  {
    var audit := new SecurityAudit();
    before := audit.IsSecure();
    audit.ToggleHttps();
    audit.ToggleSecretsInPayload();
    audit.ToggleShortExpiry();
    after := audit.IsSecure();
  }
}
