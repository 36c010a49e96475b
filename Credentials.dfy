/** The defaulting rules of the credential prompts. The four typed-in
    strings are parameters; prompting and hidden password entry are not
    modelled. */
module Credentials {

  /** Username and password for the jump host, then for the switches
      (the privileged "LA" account). */
  datatype Credentials = Credentials(
    jumpUser: string, jumpPassword: string,
    switchUser: string, switchPassword: string)

  const DefaultJumpUser: string := "user"
  const SwitchUserPrefix: string := "la-"

  /** The switch username offered when none is typed: "la-" and the jump-host username. */
  function DefaultSwitchUser(jumpUser: string): (u: string)
    ensures |u| == |SwitchUserPrefix| + |jumpUser|
    ensures u[..|SwitchUserPrefix|] == SwitchUserPrefix && u[|SwitchUserPrefix|..] == jumpUser
  {
    SwitchUserPrefix + jumpUser
  }

  /** What get_credentials returns for the four typed answers: an empty
      username takes its default, everything else is kept as typed. */
  function Resolve(typedJumpUser: string, jumpPassword: string,
                   typedSwitchUser: string, switchPassword: string): (c: Credentials)
    ensures c.jumpUser != [] && c.switchUser != []
    ensures typedJumpUser != [] ==> c.jumpUser == typedJumpUser
    ensures typedJumpUser == [] ==> c.jumpUser == DefaultJumpUser
    ensures typedSwitchUser != [] ==> c.switchUser == typedSwitchUser
    ensures typedSwitchUser == [] ==> c.switchUser == DefaultSwitchUser(c.jumpUser)
    ensures c.jumpPassword == jumpPassword && c.switchPassword == switchPassword
  {
    var jumpUser := if typedJumpUser == [] then DefaultJumpUser else typedJumpUser;
    var switchUser := if typedSwitchUser == [] then DefaultSwitchUser(jumpUser) else typedSwitchUser;
    Credentials(jumpUser, jumpPassword, switchUser, switchPassword)
  }

  /** Typing the resolved values back in changes nothing: defaulting is idempotent. */
  lemma ResolveIdempotent(typedJumpUser: string, jumpPassword: string,
                          typedSwitchUser: string, switchPassword: string)
    ensures var c := Resolve(typedJumpUser, jumpPassword, typedSwitchUser, switchPassword);
            Resolve(c.jumpUser, c.jumpPassword, c.switchUser, c.switchPassword) == c
  {
  }

  /** Accepting both defaults gives "user" and "la-user". */
  lemma ResolveAllDefaults(jumpPassword: string, switchPassword: string)
    ensures Resolve("", jumpPassword, "", switchPassword)
         == Credentials("user", jumpPassword, "la-user", switchPassword)
  {
  }
}
