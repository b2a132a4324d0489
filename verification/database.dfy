/** Persistence (database.py) over an abstract store: the `links` table as a
    sequence of rows in insertion order, the `users` table as a sequence of
    accounts. SHA-256 is a parameter `hash`; a database failure that the
    source catches is a parameter naming the error. */
module Database {
  import opened Common
  import opened Text

  /** One row of `users`. `username` is NULL until the account is registered. */
  datatype User = User(userId: int, username: Option<string>, passwordHash: string)

  /** Both tables, and the next value of the `links.id` SERIAL sequence. */
  datatype Store = Store(links: seq<Link<real>>, users: seq<User>, nextId: int)

  /** The `data_dict` handed to `save_link`: the eight inserted columns. */
  datatype NewLink = NewLink(
    url: string, title: string, image: string, summary: string, category: string,
    userId: int, lat: Option<real>, lon: Option<real>)

  /** The SERIAL column: ids increase with insertion and stay below the sequence's next value. */
  predicate LinksValid(st: Store) {
    && IdsIncreasing(st.links)
    && forall i | 0 <= i < |st.links| :: st.links[i].id < st.nextId
  }

  /** `user_id PRIMARY KEY` and `username UNIQUE` (NULLs do not clash). */
  predicate UsersValid(st: Store) {
    && (forall i, j | 0 <= i < j < |st.users| :: st.users[i].userId != st.users[j].userId)
    && (forall i, j | 0 <= i < j < |st.users| && st.users[i].username.Some? ::
          st.users[i].username != st.users[j].username)
  }

  // ---------------------------------------------------------------------------
  // Links
  // ---------------------------------------------------------------------------

  /** The row `save_link` inserts for `d`, with the id the sequence hands out. */
  function RowOf(d: NewLink, id: int): Link<real> {
    Link(id, d.url, d.title, d.image, d.summary, d.category, d.userId, d.lat, d.lon)
  }

  /** `save_link(data_dict)`: one INSERT. When the database fails the error is
      printed and swallowed and the tables are as before; otherwise exactly
      one row is appended, carrying the eight given fields and a fresh id,
      and every earlier row stays as it was. */
  function SaveLink(st: Store, d: NewLink, fails: bool): (r: Store)
    ensures fails ==> r == st
    ensures !fails ==>
      && |r.links| == |st.links| + 1
      && r.links[..|st.links|] == st.links
      && r.links[|st.links|] == RowOf(d, st.nextId)
      && r.users == st.users
      && r.nextId > st.nextId
  {
    if fails then st
    else Store(st.links + [RowOf(d, st.nextId)], st.users, st.nextId + 1)
  }

  /** Some row has this url and this user id. */
  predicate HasLink(rows: seq<Link<real>>, url: string, user: int) {
    exists i | 0 <= i < |rows| :: rows[i].url == url && rows[i].userId == user
  }

  /** The lookup `SELECT id FROM links WHERE url=%s AND user_id=%s`, row by row. */
  function AnyLink(rows: seq<Link<real>>, url: string, user: int): (b: bool)
    ensures b <==> HasLink(rows, url, user)
  {
    if rows == [] then false
    else if rows[0].url == url && rows[0].userId == user then true
    else
      var b := AnyLink(rows[1..], url, user);
      assert HasLink(rows[1..], url, user) ==> HasLink(rows, url, user) by {
        if HasLink(rows[1..], url, user) {
          var i :| 0 <= i < |rows[1..]| && rows[1..][i].url == url && rows[1..][i].userId == user;
          assert rows[i + 1] == rows[1..][i];
        }
      }
      b
  }

  /** `is_duplicate(url, user_id)`: true exactly when the user already saved that url. */
  function IsDuplicate(st: Store, url: string, user: int): (b: bool)
    ensures b <==> exists i | 0 <= i < |st.links| :: st.links[i].url == url && st.links[i].userId == user
  {
    AnyLink(st.links, url, user)
  }

  /** Saving preserves the SERIAL invariant. */
  lemma SaveKeepsValid(st: Store, d: NewLink, fails: bool)
    requires LinksValid(st)
    ensures LinksValid(SaveLink(st, d, fails))
  {
  }

  /** After a successful save the pair is a duplicate; whatever was a
      duplicate before still is. */
  lemma SaveThenDuplicate(st: Store, d: NewLink, url: string, user: int)
    ensures IsDuplicate(SaveLink(st, d, false), d.url, d.userId)
    ensures IsDuplicate(st, url, user) ==> IsDuplicate(SaveLink(st, d, false), url, user)
  {
    var r := SaveLink(st, d, false);
    assert r.links[|st.links|] == RowOf(d, st.nextId);
    if IsDuplicate(st, url, user) {
      var i :| 0 <= i < |st.links| && st.links[i].url == url && st.links[i].userId == user;
      assert r.links[i] == st.links[i];
    }
  }

  /** The filter of `search_nexus_memory`: the user's rows whose title,
      summary or category contains the query, ignoring ASCII case (`ILIKE '%q%'`). */
  predicate Matches(row: Link<real>, user: int, query: string) {
    && row.userId == user
    && (ContainsFolded(row.title, query) || ContainsFolded(row.summary, query) || ContainsFolded(row.category, query))
  }

  /** The matching rows, in storage order. */
  function MatchingRows(st: Store, user: int, query: string): (rows: seq<Link<real>>)
  {
    Filter(st.links, (row: Link<real>) => Matches(row, user, query))
  }

  /** `search_nexus_memory(user_id, query)`: the matching rows, newest first, at
      most ten. Only rows of that user that match the query are returned. */
  function Search(st: Store, user: int, query: string): (r: seq<Link<real>>)
    ensures |r| == (if |MatchingRows(st, user, query)| <= 10 then |MatchingRows(st, user, query)| else 10)
    ensures forall i | 0 <= i < |r| :: r[i] in st.links && Matches(r[i], user, query)
  {
    Take(Reverse(MatchingRows(st, user, query)), 10)
  }

  /** Results come newest id first. */
  lemma SearchNewestFirst(st: Store, user: int, query: string)
    requires LinksValid(st)
    ensures IdsDecreasing(Search(st, user, query))
  {
    FilterIncreasing(st.links, (row: Link<real>) => Matches(row, user, query));
    ReverseDecreasing(MatchingRows(st, user, query));
    TakeDecreasing(Reverse(MatchingRows(st, user, query)), 10);
  }

  /** In a sequence with increasing ids, an element missing from the last
      ten read back to front is older than each of them. */
  lemma LeftOutIsOlder(f: seq<Link<real>>, i: nat)
    requires IdsIncreasing(f)
    requires i < |f| && f[i] !in Take(Reverse(f), 10)
    ensures |Take(Reverse(f), 10)| == 10
    ensures forall j | 0 <= j < 10 :: f[i].id < Take(Reverse(f), 10)[j].id
  {
    var r := Take(Reverse(f), 10);
    forall m | |f| - |r| <= m < |f| ensures f[m] in r {
      assert r[|f| - 1 - m] == f[m];
    }
    forall j | 0 <= j < 10 ensures f[i].id < r[j].id {
      assert r[j] == f[|f| - 1 - j];
    }
  }

  /** Results are the ten newest matches: a matching row that is left out is
      older than every row returned, so with ten or fewer matches none is left out. */
  lemma SearchTopTen(st: Store, user: int, query: string, k: nat)
    requires LinksValid(st)
    requires k < |st.links| && Matches(st.links[k], user, query)
    requires st.links[k] !in Search(st, user, query)
    ensures |Search(st, user, query)| == 10
    ensures forall j | 0 <= j < 10 :: st.links[k].id < Search(st, user, query)[j].id
  {
    var f := MatchingRows(st, user, query);
    FilterIncreasing(st.links, (row: Link<real>) => Matches(row, user, query));
    assert st.links[k] in f;
    var i :| 0 <= i < |f| && f[i] == st.links[k];
    LeftOutIsOlder(f, i);
  }

  // ---------------------------------------------------------------------------
  // Accounts
  // ---------------------------------------------------------------------------

  /** The first account row whose username is `name`. */
  function FindByName(users: seq<User>, name: string): (r: Option<nat>)
    ensures r.Some? ==> r.value < |users| && users[r.value].username == Some(name)
    ensures r.Some? ==> forall i | 0 <= i < r.value :: users[i].username != Some(name)
    ensures r.None? ==> forall i | 0 <= i < |users| :: users[i].username != Some(name)
  {
    if users == [] then None
    else if users[0].username == Some(name) then Some(0)
    else match FindByName(users[1..], name)
      case None => None
      case Some(i) => Some(i + 1)
  }

  /** The first account row with this user id. */
  function FindById(users: seq<User>, id: int): (r: Option<nat>)
    ensures r.Some? ==> r.value < |users| && users[r.value].userId == id
    ensures r.None? ==> forall i | 0 <= i < |users| :: users[i].userId != id
  {
    if users == [] then None
    else if users[0].userId == id then Some(0)
    else match FindById(users[1..], id)
      case None => None
      case Some(i) => Some(i + 1)
  }

  /** `INSERT ... ON CONFLICT (user_id) DO UPDATE SET username, password_hash`. */
  function Upsert(users: seq<User>, id: int, name: string, h: string): (r: seq<User>)
    ensures User(id, Some(name), h) in r
    ensures forall i | 0 <= i < |users| && users[i].userId != id :: users[i] in r
    ensures forall i | 0 <= i < |r| && r[i].userId != id :: r[i] in users
    ensures forall i | 0 <= i < |r| :: r[i] == User(id, Some(name), h) || r[i] in users
  {
    match FindById(users, id)
    case Some(i) =>
      var r := users[i := User(id, Some(name), h)];
      assert r[i] == User(id, Some(name), h);
      forall j | 0 <= j < |users| && j != i ensures r[j] == users[j] && r[j] in users {
        assert users[j] in users;
      }
      r
    case None => users + [User(id, Some(name), h)]
  }

  /** `register_user`'s `(success, message)` and the resulting store. */
  datatype Registered = Registered(ok: bool, message: string, store: Store)

  const TakenMessage := "Username already taken."
  const UpdatedMessage := "Account updated successfully."

  /** `register_user(user_id, username, password)`: refused, with nothing
      changed, when the username belongs to another account; a database
      error is reported as `"Error: ..."` with nothing changed; otherwise the
      account is created or updated with the name and the password's hash. */
  function Register(st: Store, userId: int, username: string, password: string,
                    hash: string -> string, dbError: Option<string>): (r: Registered)
    ensures !r.ok ==> r.store == st
    ensures r.ok ==> r.message == UpdatedMessage && r.store.links == st.links && r.store.nextId == st.nextId
    ensures r.ok ==> User(userId, Some(username), hash(password)) in r.store.users
    ensures r.ok ==> forall i | 0 <= i < |st.users| && st.users[i].userId != userId :: st.users[i] in r.store.users
    ensures dbError.Some? ==> !r.ok
  {
    match FindByName(st.users, username)
    case Some(i) =>
      if st.users[i].userId != userId then Registered(false, TakenMessage, st)
      else Commit(st, userId, username, hash(password), dbError)
    case None => Commit(st, userId, username, hash(password), dbError)
  }

  /** The upsert, or the error it raised. */
  function Commit(st: Store, userId: int, username: string, h: string, dbError: Option<string>): (r: Registered)
    ensures dbError.Some? ==> r == Registered(false, "Error: " + dbError.value, st)
    ensures dbError.None? ==> r == Registered(true, UpdatedMessage, st.(users := Upsert(st.users, userId, username, h)))
  {
    if dbError.Some? then Registered(false, "Error: " + dbError.value, st)
    else Registered(true, UpdatedMessage, st.(users := Upsert(st.users, userId, username, h)))
  }

  /** Registration is refused exactly when another account holds the name
      (or the database fails); the refusal says the name is taken. */
  lemma RegisterTaken(st: Store, userId: int, username: string, password: string,
                      hash: string -> string, dbError: Option<string>)
    requires UsersValid(st)
    ensures var r := Register(st, userId, username, password, hash, dbError);
      && ((exists i | 0 <= i < |st.users| :: st.users[i].username == Some(username) && st.users[i].userId != userId)
            ==> r == Registered(false, TakenMessage, st))
      && (r.ok <==> dbError.None? && forall i | 0 <= i < |st.users| && st.users[i].username == Some(username) :: st.users[i].userId == userId)
  {
    var f := FindByName(st.users, username);
    if f.Some? {
      forall i | 0 <= i < |st.users| && st.users[i].username == Some(username) ensures i == f.value {
      }
    }
  }

  /** Registration keeps user ids and usernames unique. */
  lemma RegisterKeepsValid(st: Store, userId: int, username: string, password: string,
                           hash: string -> string, dbError: Option<string>)
    requires UsersValid(st)
    ensures UsersValid(Register(st, userId, username, password, hash, dbError).store)
  {
    var r := Register(st, userId, username, password, hash, dbError);
    if r.ok {
      RegisterTaken(st, userId, username, password, hash, dbError);
      var u := st.users;
      var n := User(userId, Some(username), hash(password));
      match FindById(u, userId)
      case Some(k) =>
        var v := u[k := n];
        assert r.store.users == v;
        forall i, j | 0 <= i < j < |v| ensures v[i].userId != v[j].userId {
          if i != k && j != k { assert v[i] == u[i] && v[j] == u[j]; }
          else if i == k { assert u[k].userId == userId; }
          else { assert u[k].userId == userId; }
        }
        forall i, j | 0 <= i < j < |v| && v[i].username.Some? ensures v[i].username != v[j].username {
          if i != k && j != k { assert v[i] == u[i] && v[j] == u[j]; }
          else if i == k { assert u[k].userId == userId; }
          else { assert u[k].userId == userId; }
        }
      case None =>
        var v := u + [n];
        assert r.store.users == v;
    }
  }

  /** `login_user(username, password)`: the account's user id when the row
      with that username stores the password's hash, else `None`; a raise of
      the SELECT or the fetch (`dbError`) is caught and also gives `None`. */
  function Login(st: Store, username: string, password: string, hash: string -> string, dbError: bool): (r: Option<int>)
    ensures dbError ==> r.None?
    ensures r.Some? ==> exists i | 0 <= i < |st.users| ::
      st.users[i].username == Some(username) && st.users[i].passwordHash == hash(password) && st.users[i].userId == r.value
    ensures (forall i | 0 <= i < |st.users| :: st.users[i].username != Some(username)) ==> r.None?
  {
    if dbError then None
    else match FindByName(st.users, username)
    case None => None
    case Some(i) => if st.users[i].passwordHash == hash(password) then Some(st.users[i].userId) else None
  }

  /** With unique usernames, login succeeds exactly when the database answers
      and holds the password's hash for that username. */
  lemma LoginIff(st: Store, username: string, password: string, hash: string -> string, dbError: bool, id: int)
    requires UsersValid(st)
    ensures Login(st, username, password, hash, dbError) == Some(id) <==>
      !dbError && exists i | 0 <= i < |st.users| ::
        st.users[i].username == Some(username) && st.users[i].passwordHash == hash(password) && st.users[i].userId == id
  {
    if !dbError && exists i | 0 <= i < |st.users| ::
        st.users[i].username == Some(username) && st.users[i].passwordHash == hash(password) && st.users[i].userId == id {
      var i :| 0 <= i < |st.users| &&
        st.users[i].username == Some(username) && st.users[i].passwordHash == hash(password) && st.users[i].userId == id;
      var f := FindByName(st.users, username);
    }
  }

  /** After a successful registration the new credentials log in, as long
      as the login's own query does not raise. */
  lemma RegisterThenLogin(st: Store, userId: int, username: string, password: string,
                          hash: string -> string, dbError: Option<string>)
    requires UsersValid(st)
    requires Register(st, userId, username, password, hash, dbError).ok
    ensures Login(Register(st, userId, username, password, hash, dbError).store, username, password, hash, false) == Some(userId)
  {
    var r := Register(st, userId, username, password, hash, dbError);
    RegisterKeepsValid(st, userId, username, password, hash, dbError);
    var k :| 0 <= k < |r.store.users| && r.store.users[k] == User(userId, Some(username), hash(password));
    LoginIff(r.store, username, password, hash, false, userId);
  }

  /** `update_password(user_id, new_password)`'s flag and the resulting store. */
  datatype Updated = Updated(ok: bool, store: Store)

  /** `UPDATE users SET password_hash WHERE user_id`: `False` and no change
      when no row has that id; otherwise the hash of that account changes
      and nothing else. */
  function UpdatePassword(st: Store, userId: int, password: string, hash: string -> string): (r: Updated)
    ensures r.ok <==> exists i | 0 <= i < |st.users| :: st.users[i].userId == userId
    ensures !r.ok ==> r.store == st
    ensures r.store.links == st.links && r.store.nextId == st.nextId && |r.store.users| == |st.users|
    ensures forall i | 0 <= i < |st.users| ::
      r.store.users[i] == (if st.users[i].userId == userId then st.users[i].(passwordHash := hash(password)) else st.users[i])
  {
    var users := seq(|st.users|, i requires 0 <= i < |st.users| =>
      if st.users[i].userId == userId then st.users[i].(passwordHash := hash(password)) else st.users[i]);
    if FindById(st.users, userId).None? then Updated(false, st)
    else Updated(true, st.(users := users))
  }

  /** After a successful password change the account logs in with the new
      password, as long as the login's own query does not raise. */
  lemma UpdateThenLogin(st: Store, userId: int, name: string, password: string, hash: string -> string)
    requires UsersValid(st)
    requires exists i | 0 <= i < |st.users| :: st.users[i].userId == userId && st.users[i].username == Some(name)
    ensures UpdatePassword(st, userId, password, hash).ok
    ensures Login(UpdatePassword(st, userId, password, hash).store, name, password, hash, false) == Some(userId)
  {
    var r := UpdatePassword(st, userId, password, hash);
    var i :| 0 <= i < |st.users| && st.users[i].userId == userId && st.users[i].username == Some(name);
    assert r.store.users[i].username == Some(name);
    assert UsersValid(r.store) by {
      forall a, b | 0 <= a < b < |r.store.users| ensures r.store.users[a].userId != r.store.users[b].userId {
        assert st.users[a].userId != st.users[b].userId;
      }
      forall a, b | 0 <= a < b < |r.store.users| && r.store.users[a].username.Some?
        ensures r.store.users[a].username != r.store.users[b].username {
        assert st.users[a].username != st.users[b].username;
      }
    }
    LoginIff(r.store, name, password, hash, false, userId);
  }
}
