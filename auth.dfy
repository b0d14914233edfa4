/**
 * AuthService: login and registration over a client store. The store behind
 * IClientService.Get/Add is a map from email address to client; Get(email) is
 * an exact-match lookup and Add inserts under the client's email.
 */
module Auth {
  import opened Wrappers
  import Hashing

  /** Client(id, name, emailAddress, password); `password` holds the digest. */
  datatype Client = Client(id: int, name: string, emailAddress: string, password: string)

  /** IClientService.Get: the client stored under `email`, if any. */
  function Get(store: map<string, Client>, email: string): (found: Option<Client>)
    ensures found.Some? <==> email in store
    ensures found.Some? ==> found.value == store[email]
  {
    if email in store then Some(store[email]) else None
  }

  /** Every client is stored under its own email, so an email names at most one client. */
  ghost predicate KeyedByEmail(store: map<string, Client>) {
    forall e :: e in store ==> store[e].emailAddress == e
  }

  /**
   * What Login returns on `store`: the stored client when its digest verifies
   * the password, none otherwise.
   */
  function LoginResult(store: map<string, Client>, email: string, password: string): (r: Option<Client>)
    ensures r.Some? <==> email in store && Hashing.VerifyPassword(password, store[email].password)
    ensures r.Some? ==> r.value == store[email]
  {
    match Get(store, email)
    case None => None
    case Some(client) => if Hashing.VerifyPassword(password, client.password) then Some(client) else None
  }

  datatype RegisterOutcome = RegisterOutcome(accepted: bool, store: map<string, Client>)

  /**
   * What Register does to `store` when the hasher draws `salt`: an email
   * already present is refused and the store kept; otherwise exactly one
   * client is added, under that email, and every other entry is kept.
   */
  function RegisterResult(store: map<string, Client>, name: string, email: string, password: string, salt: nat)
    : (r: RegisterOutcome)
    ensures r.accepted <==> email !in store
    ensures !r.accepted ==> r.store == store
    ensures r.accepted ==> r.store.Keys == store.Keys + {email}
    ensures r.accepted ==> r.store[email] == Client(0, name, email, Hashing.Digest(salt, password))
    ensures forall e :: e in store ==> e in r.store && r.store[e] == store[e]
  {
    if Get(store, email).Some? then
      RegisterOutcome(false, store)
    else
      RegisterOutcome(true, store[email := Client(0, name, email, Hashing.Digest(salt, password))])
  }

  /**
   * The password a successful registration stores is not the plaintext, it
   * verifies against the plaintext, and against nothing else.
   */
  lemma RegisteredPasswordIsHashed(store: map<string, Client>, name: string, email: string, password: string, salt: nat)
    requires email !in store
    ensures var stored := RegisterResult(store, name, email, password, salt).store[email].password;
      && stored != password
      && |stored| > |password|
      && Hashing.VerifyPassword(password, stored)
      && forall attempt :: attempt != password ==> !Hashing.VerifyPassword(attempt, stored)
  {
    var stored := RegisterResult(store, name, email, password, salt).store[email].password;
    Hashing.VerifyHashed(salt, password);
    forall attempt | attempt != password
      ensures !Hashing.VerifyPassword(attempt, stored)
    {
      Hashing.RejectWrongPassword(salt, password, attempt);
    }
  }

  /** Registration keeps every client stored under its own email. */
  lemma RegisterKeepsKeyedByEmail(store: map<string, Client>, name: string, email: string, password: string, salt: nat)
    requires KeyedByEmail(store)
    ensures KeyedByEmail(RegisterResult(store, name, email, password, salt).store)
  {
  }

  /**
   * Registering one email twice: the second call is refused and the first
   * client, with its name, stays the only one under that email.
   */
  lemma SecondRegistrationRefused(store: map<string, Client>, name1: string, name2: string, email: string,
                                  password1: string, password2: string, salt1: nat, salt2: nat)
    requires email !in store
    ensures var first := RegisterResult(store, name1, email, password1, salt1);
      var second := RegisterResult(first.store, name2, email, password2, salt2);
      && first.accepted
      && !second.accepted
      && second.store == first.store
      && second.store[email].name == name1
  {
  }

  /**
   * After a successful registration, logging in with the registered password
   * returns the new client and any other password is refused.
   */
  lemma LoginAfterRegister(store: map<string, Client>, name: string, email: string, password: string, salt: nat,
                           attempt: string)
    requires email !in store
    ensures var after := RegisterResult(store, name, email, password, salt).store;
      && LoginResult(after, email, password) == Some(Client(0, name, email, Hashing.Digest(salt, password)))
      && (attempt != password ==> LoginResult(after, email, attempt) == None)
  {
    Hashing.VerifyHashed(salt, password);
    if attempt != password {
      Hashing.RejectWrongPassword(salt, password, attempt);
    }
  }

  /**
   * Registration touches only the new email: a login for any other email
   * has the same outcome before and after it.
   */
  lemma RegisterKeepsOtherLogins(store: map<string, Client>, name: string, email: string, password: string, salt: nat,
                                 other: string, attempt: string)
    requires other != email
    ensures LoginResult(RegisterResult(store, name, email, password, salt).store, other, attempt)
         == LoginResult(store, other, attempt)
  {
  }

  class AuthService {
    /** The client store reached through IClientService. */
    var clients: map<string, Client>
    /** PasswordHelper, with its salt source. */
    const hasher: Hashing.PasswordHasher

    constructor (clients: map<string, Client>, hasher: Hashing.PasswordHasher)
      requires KeyedByEmail(clients)
      ensures this.clients == clients && this.hasher == hasher
      ensures KeyedByEmail(this.clients)
    {
      this.clients := clients;
      this.hasher := hasher;
    }

    /** Login: an unknown email and a wrong password both give none; nothing changes. */
    method Login(email: string, password: string) returns (client: Option<Client>)
      ensures client == LoginResult(clients, email, password)
    {
      var found := Get(clients, email);
      if found.None? {
        return None;
      }
      if Hashing.VerifyPassword(password, found.value.password) {
        return found;
      }
      return None;
    }

    /**
     * Register: refuse an email already in use (no hashing, no Add);
     * otherwise hash the password and add Client(0, name, email, digest).
     */
    method Register(name: string, email: string, password: string) returns (ok: bool)
      modifies this, hasher
      ensures var r := RegisterResult(old(clients), name, email, password, old(hasher.issued));
        ok == r.accepted && clients == r.store
      ensures hasher.issued == if ok then old(hasher.issued) + 1 else old(hasher.issued)
      ensures KeyedByEmail(old(clients)) ==> KeyedByEmail(clients)
    {
      if Get(clients, email).Some? {
        return false;
      }
      var hashedPassword := hasher.HashPassword(password);
      var newClient := Client(0, name, email, hashedPassword);
      clients := clients[email := newClient];
      return true;
    }
  }
}
