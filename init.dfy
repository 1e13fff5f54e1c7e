/**
 * lib/init.ts: the start-up seed. When no user is named `mestre`, one is
 * created with the password `mestre123` and `is_master = 1`; otherwise
 * nothing changes.
 */
module Init {
  import opened Wrappers
  import opened Tokens
  import opened Auth
  import opened Store
  import LoginRoute

  const MasterUsername := "mestre"
  const MasterPassword := "mestre123"

  /** The users after seeding, for a `hashPassword('mestre123')` value and the current clock. */
  function SeedUsers(users: seq<User>, clock: nat, passwordHash: string): (seeded: seq<User>)
    ensures FindUser(seeded, MasterUsername).Some?
    ensures FindUser(users, MasterUsername).Some? ==> seeded == users
    ensures FindUser(users, MasterUsername).None? ==>
      seeded == users + [User(|users| + 1, MasterUsername, passwordHash, 1, clock)]
  {
    if FindUser(users, MasterUsername).Some? then users
    else
      var master := User(|users| + 1, MasterUsername, passwordHash, 1, clock);
      FirstAppend(users, master, (u: User) => u.username == MasterUsername);
      users + [master]
  }

  /** Seeding twice is seeding once, whatever hash and clock the second run brings. */
  lemma SeedIdempotent(users: seq<User>, clock: nat, passwordHash: string, clock2: nat, passwordHash2: string)
    ensures SeedUsers(SeedUsers(users, clock, passwordHash), clock2, passwordHash2) == SeedUsers(users, clock, passwordHash)
  {
  }

  /** An existing `mestre` keeps its record: the seed neither re-hashes nor promotes it. */
  lemma ExistingMasterKept(users: seq<User>, clock: nat, passwordHash: string)
    requires FindUser(users, MasterUsername).Some?
    ensures FindUser(SeedUsers(users, clock, passwordHash), MasterUsername) == FindUser(users, MasterUsername)
  {
  }

  /** `initializeDatabase()`: look the user up, insert it when absent. */
  method InitializeDatabase(db: Database, saltRandom: seq<byte>, kdf: Kdf)
    requires db.Valid() && |saltRandom| == 16 && IsHexDigestFunction(kdf)
    modifies db
    ensures db.Valid()
    ensures db.users == SeedUsers(old(db.users), old(db.clock), HashPassword(MasterPassword, saltRandom, kdf))
    ensures FindUser(old(db.users), MasterUsername).Some? ==> unchanged(db)
    ensures FindUser(old(db.users), MasterUsername).None? ==> db.clock == old(db.clock) + 1
    ensures db.tables == old(db.tables) && db.characters == old(db.characters) && db.npcs == old(db.npcs)
  {
    if FindUser(db.users, MasterUsername).None? {
      var passwordHash := HashPassword(MasterPassword, saltRandom, kdf);
      var _ := db.InsertUser(MasterUsername, passwordHash, 1);
    }
  }

  /** A freshly seeded `mestre` logs in with `mestre123` and is reported as master. */
  lemma SeededMasterLogsIn(db: Database, users: seq<User>, clock: nat, saltRandom: seq<byte>, kdf: Kdf,
                           sessionRandom: seq<byte>)
    requires |saltRandom| == 16 && IsHexDigestFunction(kdf) && |sessionRandom| == 32
    requires FindUser(users, MasterUsername).None?
    requires db.users == SeedUsers(users, clock, HashPassword(MasterPassword, saltRandom, kdf))
    ensures var response := LoginRoute.Post(db, LoginRoute.LoginRequest(Some(MasterUsername), Some(MasterPassword)),
                                            kdf, sessionRandom);
      response.Ok? && response.body.user.isMaster
  {
  }
}
