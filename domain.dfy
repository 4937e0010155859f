/** The profile records served by the upstream placeholder service and the
    audit row that caches them (SpringDataJdbcApplication.java, lines 81-84
    and 126). All are immutable values with structural equality. */
module Domain {
  import opened Wrappers

  /** Latitude and longitude are Java `Double`s that the service never
      computes on; they are carried as opaque reals. */
  datatype Geo = Geo(lat: real, lng: real)

  datatype Address = Address(street: string, suite: string, city: string, zipcode: string, geo: Geo)

  datatype Company = Company(name: string, catchPhrase: string, bs: string)

  datatype User = User(
    id: string,
    name: string,
    username: string,
    email: string,
    address: Address,
    phone: string,
    website: string,
    company: Company)

  /** A row of table `users_audit`: `id` is the primary key the database
      assigns (unset until saved), `userId` the requested profile id and
      `data` the cached profile. Every component is a nullable Java
      reference, hence Option. */
  datatype UserAudit = UserAudit(id: Option<int>, userId: Option<int>, data: Option<User>)
}
