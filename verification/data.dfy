/** The persisted records that authentication loads or hands back. */
module Data {

  /** A user record, keyed by its username; `password` holds the stored bcrypt hash. */
  datatype User = User(username: string, password: string)

  /** A login session. Authentication never issues one. */
  datatype Session = Session(key: string)
}
