/** The request handlers of the server. The database is an in-memory store: the read-only
    handlers are functions of its rows (and of the current time), the two that insert a row
    are methods of the `Store` class that holds the tables. */
module Handlers {
  import opened Models
  import opened Casing
  import opened Ordering

  // ---------------------------------------------------------------------------------------
  // Users: lookups and the uniqueness invariant
  // ---------------------------------------------------------------------------------------

  /** `db.Users.AnyAsync(u => u.Username == name)`: an exact, case-sensitive match. */
  predicate HasUsername(users: seq<User>, name: string) {
    exists i :: 0 <= i < |users| && users[i].username == name
  }

  /** The unique index on `Username`: no two rows share a name. */
  predicate UniqueUsernames(users: seq<User>) {
    forall i, j :: 0 <= i < j < |users| ==> users[i].username != users[j].username
  }

  /** Some row has primary key `id` (the target of the games' foreign key). */
  predicate UserExists(users: seq<User>, id: int) {
    exists i :: 0 <= i < |users| && users[i].id == id
  }

  /** Every row's admin flag is the one register computes from its name. Register is the
      only handler that writes users, so every stored row keeps this rule. */
  predicate AdminFlagsFollowRule(users: seq<User>) {
    forall i :: 0 <= i < |users| ==> users[i].isAdmin == IsAdminName(users[i].username)
  }

  /** Row `i` is the first row named `name`. */
  predicate FirstNamed(users: seq<User>, name: string, i: int) {
    0 <= i < |users| && users[i].username == name &&
    forall j :: 0 <= j < i ==> users[j].username != name
  }

  /** `FirstOrDefaultAsync(u => u.Username == name)`, as the index of the row found. */
  function FindByUsername(users: seq<User>, name: string): (r: Option<nat>)
    ensures r.Some? ==> FirstNamed(users, name, r.value)
    ensures r.None? <==> !HasUsername(users, name)
  {
    if users == [] then None
    else if users[0].username == name then Some(0)
    else
      match FindByUsername(users[1..], name)
      case None =>
        assert forall i :: 0 < i < |users| ==> users[i] == users[1..][i - 1];
        None
      case Some(k) =>
        assert forall j :: 0 < j <= k ==> users[j] == users[1..][j - 1];
        Some(k + 1)
  }

  // ---------------------------------------------------------------------------------------
  // POST /auth/login
  // ---------------------------------------------------------------------------------------

  /** Looks the user up by exact name and checks the password with `verify` (BCrypt's
      `Verify(password, hash)`). A missing user and a wrong password give the same error. */
  function Login(users: seq<User>, dto: Credentials, verify: (string, string) -> bool)
    : (r: Result<AuthReply>)
    ensures r.Err? ==> r == Err(InvalidCredentials)
    ensures r.Ok? <==>
      exists i :: FirstNamed(users, dto.username, i) && verify(dto.password, users[i].passwordHash)
    ensures r.Ok? ==>
      exists i :: FirstNamed(users, dto.username, i) && r.value == ReplyOf(users[i])
  {
    match FindByUsername(users, dto.username)
    case None => Err(InvalidCredentials)
    case Some(i) =>
      if !verify(dto.password, users[i].passwordHash) then Err(InvalidCredentials)
      else Ok(ReplyOf(users[i]))
  }

  /** Under the unique index, a name matches at most one row, so the first row found is the
      only one. */
  lemma UniqueNamedIsFirst(users: seq<User>, name: string, i: int)
    requires UniqueUsernames(users)
    requires 0 <= i < |users| && users[i].username == name
    ensures FirstNamed(users, name, i)
  {
  }

  /** With unique names, login succeeds exactly when some stored user has the given name and
      the password verifies against that user's hash, and then it answers with that user's
      stored id, name and admin flag; otherwise it fails with the one generic error. */
  lemma LoginSucceedsIff(users: seq<User>, dto: Credentials, verify: (string, string) -> bool)
    requires UniqueUsernames(users)
    ensures Login(users, dto, verify).Ok? <==>
      exists i :: 0 <= i < |users| && users[i].username == dto.username &&
                  verify(dto.password, users[i].passwordHash)
    ensures forall i :: 0 <= i < |users| && users[i].username == dto.username &&
                        verify(dto.password, users[i].passwordHash) ==>
               Login(users, dto, verify) == Ok(ReplyOf(users[i]))
    ensures !Login(users, dto, verify).Ok? ==> Login(users, dto, verify) == Err(InvalidCredentials)
  {
  }

  /** A missing user and a wrong password cannot be told apart by the answer, on any store:
      the wrong password is one that fails against the row the lookup finds. */
  lemma LoginFailuresIdentical(users: seq<User>, missing: Credentials, wrong: Credentials,
                               verify: (string, string) -> bool)
    requires !HasUsername(users, missing.username)
    requires exists i :: FirstNamed(users, wrong.username, i) &&
                         !verify(wrong.password, users[i].passwordHash)
    ensures Login(users, missing, verify) == Login(users, wrong, verify) == Err(InvalidCredentials)
  {
  }

  /** On a store whose admin flags follow the rule, a successful login reports the admin flag
      of the lower-cased name comparison. */
  lemma LoginAdminFlagIsRule(users: seq<User>, dto: Credentials, verify: (string, string) -> bool)
    requires AdminFlagsFollowRule(users)
    requires Login(users, dto, verify).Ok?
    ensures Login(users, dto, verify).value.isAdmin == IsAdminName(dto.username)
  {
  }

  /** A user appended under a fresh name can log in with the password whose hash was stored,
      provided the external `verify` accepts that password against that hash. */
  lemma LoginAfterRegister(users: seq<User>, u: User, password: string,
                           verify: (string, string) -> bool)
    requires !HasUsername(users, u.username)
    requires verify(password, u.passwordHash)
    ensures Login(users + [u], Credentials(u.username, password), verify) == Ok(ReplyOf(u))
  {
    var all := users + [u];
    assert all[|users|] == u;
    assert forall j :: 0 <= j < |users| ==> all[j] == users[j];
    assert HasUsername(all, u.username);
    assert FindByUsername(all, u.username) == Some(|users|);
  }

  // ---------------------------------------------------------------------------------------
  // GET /users
  // ---------------------------------------------------------------------------------------

  /** Every row in store order, each projected to id, name, admin flag and creation time. */
  function ListUsers(users: seq<User>): (r: seq<UserView>)
    ensures |r| == |users|
    ensures forall i :: 0 <= i < |users| ==>
      r[i].id == users[i].id && r[i].username == users[i].username &&
      r[i].isAdmin == users[i].isAdmin && r[i].createdAt == users[i].createdAt
  {
    if users == [] then [] else [UserViewOf(users[0])] + ListUsers(users[1..])
  }

  /** Two stores that differ only in their password hashes list the same users: no part of
      a hash reaches the listing. */
  lemma {:induction false} ListUsersIgnoresHashes(a: seq<User>, b: seq<User>)
    requires |a| == |b|
    requires forall i :: 0 <= i < |a| ==> a[i] == b[i].(passwordHash := a[i].passwordHash)
    ensures ListUsers(a) == ListUsers(b)
  {
  }

  // ---------------------------------------------------------------------------------------
  // GET /games, GET /games/next, GET /games/past
  // ---------------------------------------------------------------------------------------

  /** The game views of `s`, position by position. */
  function Views(s: seq<Game>): (r: seq<GameView>)
    ensures |r| == |s|
    ensures forall i :: 0 <= i < |s| ==> r[i] == GameViewOf(s[i])
  {
    if s == [] then [] else [GameViewOf(s[0])] + Views(s[1..])
  }

  /** GET /games: every stored game, none filtered out, ordered by date ascending. Each entry
      carries every column of its row (date and time are formatted from `gameDate`). */
  function AllGames(games: seq<Game>): (r: seq<Game>)
    ensures multiset(r) == multiset(games)
    ensures |r| == |games|
    ensures forall i, j :: 0 <= i < j < |r| ==> r[i].gameDate <= r[j].gameDate
  {
    var r := SortBy(Ascending, games);
    assert |r| == |multiset(r)| == |multiset(games)| == |games|;
    r
  }

  /** The filter of GET /games/next: `GameDate >= now`. */
  function Upcoming(games: seq<Game>, now: Timestamp): (r: seq<Game>)
    ensures forall g :: multiset(r)[g] == if g.gameDate >= now then multiset(games)[g] else 0
  {
    Where(games, (g: Game) => g.gameDate >= now)
  }

  /** GET /games/next: the earliest game at or after `now`, or NotFound when there is none. */
  function NextGame(games: seq<Game>, now: Timestamp): (r: Result<GameView>)
    ensures r.Err? <==> forall g :: g in games ==> g.gameDate < now
    ensures r.Err? ==> r == Err(NoUpcomingGame)
    ensures r.Ok? ==>
      exists g :: g in games && g.gameDate >= now && r.value == GameViewOf(g) &&
                  forall h :: h in games && h.gameDate >= now ==> g.gameDate <= h.gameDate
  {
    var upcoming := Upcoming(games, now);
    var ordered := SortBy(Ascending, upcoming);
    if ordered == [] then
      assert forall g :: g in games ==> g.gameDate < now by {
        forall g | g in games ensures g.gameDate < now {
          assert multiset(games)[g] > 0;
          assert multiset(ordered)[g] == 0;
        }
      }
      Err(NoUpcomingGame)
    else
      var first := ordered[0];
      assert first in multiset(ordered);
      assert first in games && first.gameDate >= now by {
        assert multiset(upcoming)[first] > 0;
      }
      assert forall h :: h in games && h.gameDate >= now ==> first.gameDate <= h.gameDate by {
        forall h | h in games && h.gameDate >= now ensures first.gameDate <= h.gameDate {
          assert multiset(games)[h] > 0;
          assert h in multiset(ordered);
          var j :| 0 <= j < |ordered| && ordered[j] == h;
          if j > 0 { assert InOrder(Ascending, ordered[0], ordered[j]); }
        }
      }
      Ok(GameViewOf(first))
  }

  /** The query of GET /games/past: the games strictly before `now`, latest first. */
  function PastGames(games: seq<Game>, now: Timestamp): (r: seq<Game>)
    ensures forall g :: multiset(r)[g] == if g.gameDate < now then multiset(games)[g] else 0
    ensures SortedBy(Descending, r)
  {
    SortBy(Descending, Where(games, (g: Game) => g.gameDate < now))
  }

  /** The views of rows sorted latest first are sorted latest first. */
  lemma ViewsDescending(p: seq<Game>)
    requires SortedBy(Descending, p)
    ensures forall i, j :: 0 <= i < j < |Views(p)| ==> Views(p)[i].gameDate >= Views(p)[j].gameDate
  {
  }

  /** Every view of a past row is the view of a stored game before `now`. */
  lemma PastViewsSound(games: seq<Game>, now: Timestamp, k: nat)
    requires k < |PastGames(games, now)|
    ensures var g := PastGames(games, now)[k];
      g in games && g.gameDate < now && Views(PastGames(games, now))[k] == GameViewOf(g)
  {
  }

  /** Every stored game before `now` has its view among the past views. */
  lemma PastViewsComplete(games: seq<Game>, now: Timestamp, g: Game)
    requires g in games && g.gameDate < now
    ensures GameViewOf(g) in Views(PastGames(games, now))
  {
  }

  /** A listing that holds, position by position, the views of the past rows is ordered
      latest first, sound and complete. */
  lemma PastListingFacts(games: seq<Game>, now: Timestamp, r: seq<GameView>)
    requires r == Views(PastGames(games, now))
    ensures forall i, j :: 0 <= i < j < |r| ==> r[i].gameDate >= r[j].gameDate
    ensures forall k :: 0 <= k < |r| ==>
      exists g :: g in games && g.gameDate < now && r[k] == GameViewOf(g)
    ensures forall g :: g in games && g.gameDate < now ==> GameViewOf(g) in r
  {
    var p := PastGames(games, now);
    ViewsDescending(p);
    forall k | 0 <= k < |r|
      ensures exists g :: g in games && g.gameDate < now && r[k] == GameViewOf(g)
    {
      PastViewsSound(games, now, k);
    }
    forall g | g in games && g.gameDate < now ensures GameViewOf(g) in r {
      PastViewsComplete(games, now, g);
    }
  }

  /** GET /games/past as answered: the views of the past games, latest first, one entry per
      past row; a game is listed iff it is stored and lies before `now`. */
  function PastGamesResponse(games: seq<Game>, now: Timestamp): (r: seq<GameView>)
    ensures |r| == |PastGames(games, now)|
    ensures forall k :: 0 <= k < |r| ==> r[k] == GameViewOf(PastGames(games, now)[k])
    ensures forall i, j :: 0 <= i < j < |r| ==> r[i].gameDate >= r[j].gameDate
    ensures forall k :: 0 <= k < |r| ==>
      exists g :: g in games && g.gameDate < now && r[k] == GameViewOf(g)
    ensures forall g :: g in games && g.gameDate < now ==> GameViewOf(g) in r
  {
    var r := Views(PastGames(games, now));
    PastListingFacts(games, now, r);
    r
  }

  /** At a fixed `now` the next-filter and the past-filter split the stored games: together
      they hold every game exactly as often as the store, and no game is in both. */
  lemma {:induction false} PartitionByNow(games: seq<Game>, now: Timestamp)
    ensures multiset(Upcoming(games, now)) + multiset(PastGames(games, now)) == multiset(games)
    ensures forall g :: !(g in Upcoming(games, now) && g in PastGames(games, now))
  {
  }

  // ---------------------------------------------------------------------------------------
  // The store and the two handlers that insert a row
  // ---------------------------------------------------------------------------------------

  /** The text `DateTime.Parse` receives: `"{GameDate} {GameTime}"`. */
  function DateTimeText(dto: CreateGameDto): string {
    dto.gameDate + " " + dto.gameTime
  }

  /** The tables of the database. Identity columns are modelled by counters that hand out a
      key larger than every key in use. */
  class Store {
    var users: seq<User>
    var games: seq<Game>
    var nextUserId: int
    var nextGameId: int

    /** The unique index on names, the admin rule on every user, fresh increasing keys, and
        the foreign key from every game to the user who created it. */
    ghost predicate Valid()
      reads this
    {
      && 0 < nextUserId && 0 < nextGameId
      && UniqueUsernames(users)
      && AdminFlagsFollowRule(users)
      && (forall i :: 0 <= i < |users| ==> 0 < users[i].id < nextUserId)
      && (forall i, j :: 0 <= i < j < |users| ==> users[i].id < users[j].id)
      && (forall i :: 0 <= i < |games| ==> 0 < games[i].id < nextGameId)
      && (forall i, j :: 0 <= i < j < |games| ==> games[i].id < games[j].id)
      && (forall i :: 0 <= i < |games| ==> UserExists(users, games[i].createdByUserId))
    }

    /** An empty database. */
    constructor ()
      ensures Valid()
      ensures users == [] && games == []
    {
      users := [];
      games := [];
      nextUserId := 1;
      nextGameId := 1;
    }

    /** POST /auth/register. A name already present is refused before anything is written;
        otherwise one user is appended with the hashed password and the admin flag. */
    method Register(dto: Credentials, hash: string -> string, now: Timestamp)
      returns (r: Result<AuthReply>)
      requires Valid()
      modifies this
      ensures Valid()
      ensures games == old(games) && nextGameId == old(nextGameId)
      ensures HasUsername(old(users), dto.username) ==>
        r == Err(UsernameTaken) && users == old(users) && nextUserId == old(nextUserId)
      ensures !HasUsername(old(users), dto.username) ==>
        var u := User(old(nextUserId), dto.username, hash(dto.password),
                      IsAdminName(dto.username), now);
        && users == old(users) + [u]
        && (forall i :: 0 <= i < |old(users)| ==> old(users)[i].id != u.id)
        && r == Ok(ReplyOf(u))
    {
      if HasUsername(users, dto.username) {
        return Err(UsernameTaken);
      }
      var passwordHash := hash(dto.password);
      var isAdmin := IsAdminName(dto.username);
      var user := User(nextUserId, dto.username, passwordHash, isAdmin, now);
      ghost var before := users;
      users := users + [user];
      nextUserId := nextUserId + 1;
      assert forall i :: 0 <= i < |before| ==> users[i] == before[i];
      assert users[|before|] == user;
      forall i | 0 <= i < |games| ensures UserExists(users, games[i].createdByUserId) {
        var j :| 0 <= j < |before| && before[j].id == games[i].createdByUserId;
        assert users[j] == before[j];
      }
      r := Ok(ReplyOf(user));
    }

    /** POST /games. The date and time text is parsed with `parse` (`DateTime.Parse`); a
        failure there, or a creator id that the foreign key rejects when saving, ends in the
        catch block with nothing written. Otherwise one game is appended. */
    method CreateGame(dto: CreateGameDto, parse: string -> Option<Timestamp>, now: Timestamp)
      returns (r: Result<GameView>)
      requires Valid()
      modifies this
      ensures Valid()
      ensures users == old(users) && nextUserId == old(nextUserId)
      ensures parse(DateTimeText(dto)).None? ==>
        r == Err(GameNotCreated(UnparsableDateTime)) &&
        games == old(games) && nextGameId == old(nextGameId)
      ensures parse(DateTimeText(dto)).Some? && !UserExists(users, dto.createdByUserId) ==>
        r == Err(GameNotCreated(UnknownCreator)) &&
        games == old(games) && nextGameId == old(nextGameId)
      ensures parse(DateTimeText(dto)).Some? && UserExists(users, dto.createdByUserId) ==>
        var g := Game(old(nextGameId), parse(DateTimeText(dto)).value, dto.location,
                      dto.opponent, dto.createdByUserId, now);
        && games == old(games) + [g]
        && (forall i :: 0 <= i < |old(games)| ==> old(games)[i].id != g.id)
        && r == Ok(GameViewOf(g))
    {
      var parsed := parse(DateTimeText(dto));
      if parsed.None? {
        return Err(GameNotCreated(UnparsableDateTime));
      }
      var game := Game(nextGameId, parsed.value, dto.location, dto.opponent,
                       dto.createdByUserId, now);
      if !UserExists(users, game.createdByUserId) {
        return Err(GameNotCreated(UnknownCreator));
      }
      ghost var before := games;
      games := games + [game];
      nextGameId := nextGameId + 1;
      assert forall i :: 0 <= i < |before| ==> games[i] == before[i];
      assert games[|before|] == game;
      r := Ok(GameViewOf(game));
    }
  }

  /** Registering one name twice: the first call succeeds, the second is refused and leaves
      the first user as it was. */
  method RegisterTwice(dto: Credentials, hash: string -> string, now: Timestamp)
    returns (first: Result<AuthReply>, second: Result<AuthReply>, stored: seq<User>)
    ensures first.Ok? && second == Err(UsernameTaken)
    ensures |stored| == 1 && stored[0].username == dto.username
    ensures stored[0].passwordHash == hash(dto.password)
    ensures ReplyOf(stored[0]) == first.value
  {
    var db := new Store();
    first := db.Register(dto, hash, now);
    assert db.users[0].username == dto.username;
    second := db.Register(dto, hash, now + 1);
    stored := db.users;
  }
}
