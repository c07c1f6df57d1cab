/** The rows of the blog's tables, the acting identity, and what a handler answers. */
module Records {
  import opened Wrappers

  /** The identity a valid session token carries. */
  datatype Session = Session(userid: int, username: string)

  /** The identity of a request: `None` is the anonymous visitor (no token, or one that does not verify). */
  type Identity = Option<Session>

  /** The salt `bcrypt.genSaltSync` draws at random; the caller supplies it. */
  type Salt = nat

  /**
   * A salted password hash. Hashing is treated as an ideal one-way function: a hash remembers
   * which password it was made from, and nothing else can be learnt from it in this model.
   */
  datatype PasswordHash = Bcrypt(salt: Salt, secret: string)

  /** `bcrypt.hashSync(password, salt)` */
  function Hash(password: string, salt: Salt): (h: PasswordHash)
    ensures Matches(password, h) && h.salt == salt
  {
    Bcrypt(salt, password)
  }

  /** `bcrypt.compareSync(password, h)` */
  predicate Matches(password: string, h: PasswordHash) {
    h.secret == password
  }

  /** A hash accepts the password it was made from, whatever the salt, and no other password. */
  lemma HashMatchesOnlyItsPassword(password: string, other: string, salt: Salt)
    ensures Matches(password, Hash(password, salt))
    ensures Matches(other, Hash(password, salt)) ==> other == password
  {
  }

  /** A row of `users`. */
  datatype User = User(email: string, username: string, password: PasswordHash)

  /** A row of `articles` (its id is the key it is stored under). */
  datatype Article = Article(title: string, body: string, likes: int, authorid: int, createdDate: string)

  /** A row of `articlewishes`. */
  datatype Wish = Wish(email: string, text: string)

  /** The messages a handler shows when it re-renders its form. */
  datatype Message =
    | MissingEmail             // registration: no email given
    | MissingUsername          // registration and login: no username given
    | MissingPassword          // registration and login: no password given
    | UsernameTooShort         // username shorter than 3 characters
    | UsernameTooLong          // username longer than 20 characters
    | UsernameNotAlphanumeric  // username with a character other than an ASCII letter or digit
    | PasswordTooShort         // password under 5 characters (never shown: see Accounts.PasswordLengthCheck)
    | UsernameTaken            // the username belongs to another user already
    | UnknownUsername          // login: no user has this username
    | WrongPassword            // login: the password does not match the stored hash
    | EmptyNewEmail            // change of email: the new address is blank
    | PasswordsDiffer          // change of password: the two entries differ
    | EmptyNewPassword         // change of password: the new password is empty
    | EmptyTitle               // article: the cleaned title is empty
    | EmptyBody                // article: the cleaned body is empty
    | TitleTooLong             // article: the cleaned title has 30 or more code units
    | EmptyWish                // article wish: the wish is empty

  /** Why a request was redirected away without any message. */
  datatype Denial = NotAdmin | NotWriter | NotLoggedIn | NotFound | NotOwner

  /**
   * The outcome of a handler: it went through (with a result), it was redirected by a guard,
   * the ownership test or a missing article, it re-rendered its form with messages, or a
   * storage statement failed and the request ended in an error.
   */
  datatype Reply<+T> = Done(value: T) | Redirected(denial: Denial) | Rejected(errors: seq<Message>) | Failed
}
