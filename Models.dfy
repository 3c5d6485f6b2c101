/** Rows of the three tables the handlers touch, the request bodies they accept and the
    response shapes they produce. */
module Models {

  /** A point in time. Every handler compares and sorts games on one totally ordered
      timestamp, so `DateTime` is modelled as an integer. */
  type Timestamp = int

  datatype Option<T> = None | Some(value: T)

  /** A row of the Users table. */
  datatype User = User(
    id: int,
    username: string,
    passwordHash: string,
    isAdmin: bool,
    createdAt: Timestamp)

  /** A row of the Games table; `gameDate` is the single date-and-time the handlers use. */
  datatype Game = Game(
    id: int,
    gameDate: Timestamp,
    location: string,
    opponent: string,
    createdByUserId: int,
    createdAt: Timestamp)

  /** Body of POST /auth/register (and, with the same two fields, of POST /auth/login). */
  datatype Credentials = Credentials(username: string, password: string)

  /** Body of POST /games. The date and the time are kept as the text that string
      interpolation gives them, since the handler parses `"<date> <time>"`. */
  datatype CreateGameDto = CreateGameDto(
    gameDate: string,
    gameTime: string,
    location: string,
    opponent: string,
    createdByUserId: int)

  /** What register and login answer on success (the fixed message text aside). */
  datatype AuthReply = AuthReply(id: int, username: string, isAdmin: bool)

  /** One entry of GET /users: every column except the password hash. */
  datatype UserView = UserView(id: int, username: string, isAdmin: bool, createdAt: Timestamp)

  /** The game shape of GET /games/next, GET /games/past and POST /games: the row without
      its `createdAt` and without the owning user object. */
  datatype GameView = GameView(
    id: int,
    gameDate: Timestamp,
    location: string,
    opponent: string,
    createdByUserId: int)

  /** Why a game could not be created; both end in the handler's catch block. */
  datatype CreateFailure = UnparsableDateTime | UnknownCreator

  /** The error answers; all are 400 Bad Request except `NoUpcomingGame`, a 404. */
  datatype Error =
    | UsernameTaken                        // register: the name already exists
    | InvalidCredentials                   // login: one answer for both failures
    | NoUpcomingGame                       // /games/next: nothing at or after now
    | GameNotCreated(cause: CreateFailure) // POST /games: the catch block

  /** A handler's answer. `Ok` is 200 OK for register, login and the queries, and
      201 Created with Location `/games/{id}` for POST /games. */
  datatype Result<T> = Ok(value: T) | Err(error: Error)

  function ReplyOf(u: User): AuthReply {
    AuthReply(u.id, u.username, u.isAdmin)
  }

  function UserViewOf(u: User): UserView {
    UserView(u.id, u.username, u.isAdmin, u.createdAt)
  }

  function GameViewOf(g: Game): GameView {
    GameView(g.id, g.gameDate, g.location, g.opponent, g.createdByUserId)
  }
}
