/** The records the handlers exchange with the persistence layer, and the
    views of them that the handlers send back to the client. */
module Records {

  /** A uuid.UUID, kept abstract. */
  type Uuid = nat

  /** A time.Time. The model keeps only its year: encoding a time as JSON
      fails when its year lies outside [0, 9999] (and also when its zone
      offset is a day or more, which the model does not keep). */
  datatype Timestamp = Timestamp(year: int, nanosIntoYear: nat)

  /** A row of the users table as the query layer returns it. */
  datatype User = User(id: Uuid, createdAt: Timestamp, updatedAt: Timestamp,
                       email: string, hashedPassword: string)

  /** A row of the chirps table as the query layer returns it. */
  datatype Chirp = Chirp(id: Uuid, createdAt: Timestamp, updatedAt: Timestamp,
                         body: string, userId: Uuid)

  /** What the user endpoints send back: neither the password nor its hash. */
  datatype UserView = UserView(id: Uuid, createdAt: Timestamp, updatedAt: Timestamp,
                               email: string)

  /** What the chirp endpoints send back. */
  datatype ChirpView = ChirpView(id: Uuid, createdAt: Timestamp, updatedAt: Timestamp,
                                 body: string, userId: Uuid)

  function PublicUser(u: User): UserView {
    UserView(u.id, u.createdAt, u.updatedAt, u.email)
  }

  function PublicChirp(c: Chirp): ChirpView {
    ChirpView(c.id, c.createdAt, c.updatedAt, c.body, c.userId)
  }

  /** The user view tells two users apart by everything but the password
      hash: the hash never reaches the client. */
  lemma PublicUserHidesOnlyTheHash(u: User, v: User)
    ensures PublicUser(u) == PublicUser(v) <==>
              u.(hashedPassword := "") == v.(hashedPassword := "")
    ensures PublicUser(u.(hashedPassword := v.hashedPassword)) == PublicUser(u)
  {
  }

  /** The chirp view echoes every field of the stored chirp. */
  lemma PublicChirpKeepsEveryField(c: Chirp, d: Chirp)
    ensures PublicChirp(c) == PublicChirp(d) <==> c == d
  {
  }
}
