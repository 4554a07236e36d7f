/** The two ways db/CollectionDao.java turns an authorization into the scalar auth columns of
    a request row: `saveRequest` picks credentials by key under the auth's type, `updateRequest`
    picks them by position whatever the type. Read back with `reconstructAuth`. */
module AuthColumnProperties {
  import opened Wrappers
  import opened JavaText
  import opened Objects
  import opened Store
  import opened CollectionWrites
  import opened CollectionReads

  /** A type cannot be both "basic" and "bearer", ignoring case. */
  lemma BasicIsNotBearer(t: Option<string>)
    ensures !(IsAuthType(t, "basic") && IsAuthType(t, "bearer"))
  {
    if t.Some? {
      assert |ToLower("basic")| != |ToLower("bearer")|;
    }
  }

  /** Saving with the keyed extraction, reading back and saving again writes the same columns:
      `reconstructAuth` gives back exactly what `saveRequest` picks. */
  lemma KeyedColumnsReadBack(auth: Option<Auth>)
    ensures KeyedAuthColumns(ReconstructAuth(KeyedAuthColumns(auth))) == KeyedAuthColumns(auth)
  {
    var cols := KeyedAuthColumns(auth);
    BasicIsNotBearer(cols.authType);
  }

  /** Credentials keyed "username" then "password", as the request panel builds them, give the
      same credential columns under both extractions; only the type differs, since
      `updateRequest` always writes "basic". */
  lemma OrderedBasicColumnsAgree(t: Option<string>, u: Option<string>, p: Option<string>)
    requires IsAuthType(t, "basic")
    ensures var a := Some(Auth(t, Some([Credential(Some("username"), u, None), Credential(Some("password"), p, None)]), None));
            KeyedAuthColumns(a) == AuthColumns(t, u, p, None)
            && PositionalAuthColumns(a) == AuthColumns(Some("basic"), u, p, None)
  {
    var creds := [Credential(Some("username"), u, None), Credential(Some("password"), p, None)];
    assert CredentialValue(creds, "username") == u by {
      assert IsLastKeyed(creds, "username", 0);
    }
    assert CredentialValue(creds, "password") == p by {
      assert IsLastKeyed(creds, "password", 1);
    }
  }

  /** With the two credentials the other way round the extractions disagree: `updateRequest`
      stores the password as the username. */
  lemma SwappedBasicColumnsDisagree(t: Option<string>, u: Option<string>, p: Option<string>)
    requires IsAuthType(t, "basic") && u != p
    ensures var a := Some(Auth(t, Some([Credential(Some("password"), p, None), Credential(Some("username"), u, None)]), None));
            KeyedAuthColumns(a).basicUsername == u && PositionalAuthColumns(a).basicUsername == p
  {
    var creds := [Credential(Some("password"), p, None), Credential(Some("username"), u, None)];
    assert CredentialValue(creds, "username") == u by {
      assert IsLastKeyed(creds, "username", 1);
    }
  }

  /** `updateRequest` ignores the auth's type: a bearer-typed auth that also carries a basic list
      is stored as basic, where `saveRequest` stores the token. */
  lemma PositionalIgnoresType(basic: seq<Credential>, token: Option<string>)
    requires |basic| > 0
    ensures var a := Some(Auth(Some("bearer"), Some(basic), Some([Credential(Some("token"), token, None)])));
            PositionalAuthColumns(a).authType == Some("basic") && PositionalAuthColumns(a).bearerToken.None?
            && KeyedAuthColumns(a) == AuthColumns(Some("bearer"), None, None, token)
  {
    var creds := [Credential(Some("token"), token, None)];
    assert IsLastKeyed(creds, "token", 0);
    assert !IsAuthType(Some("bearer"), "basic") by {
      BasicIsNotBearer(Some("bearer"));
      assert ToLower("bearer") == "bearer";
    }
  }

  /** Columns `updateRequest` wrote for a basic auth with both credentials set read back as the
      two credentials, which `updateRequest` then writes again unchanged. */
  lemma PositionalColumnsReadBack(u: string, p: string)
    ensures var cols := AuthColumns(Some("basic"), Some(u), Some(p), None);
            PositionalAuthColumns(ReconstructAuth(cols)) == cols
  {
    assert ToLower("basic") == "basic";
  }

  /** A basic auth stored without a username reads back as a one-credential list, which
      `updateRequest` then writes as the username. */
  lemma PositionalShiftsLoneCredential(p: string)
    ensures PositionalAuthColumns(ReconstructAuth(AuthColumns(Some("basic"), None, Some(p), None)))
              == AuthColumns(Some("basic"), Some(p), None, None)
  {
    assert ToLower("basic") == "basic";
  }
}
