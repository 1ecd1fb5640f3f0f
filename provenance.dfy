/**
 * The provenance tag (`dataSource`) written into each record.
 *
 * The source interpolates the `hostname` export of the `os` module into
 * `git@${hostname}`. Node's `os` module gives that function a
 * `Symbol.toPrimitive` hook that calls it, and a template literal converts its
 * operand through that hook, so the tag is "git@" followed by the machine's
 * host name.
 */
module Provenance {

  /** What the program observes about the machine it runs on: its host name. */
  datatype Machine = Machine(hostName: string)

  const Prefix := "git@"

  /** `git@${hostname}`: the tag names the machine. */
  function DataSource(m: Machine): (tag: string)
    ensures |tag| >= |Prefix| && tag[..|Prefix|] == Prefix && tag[|Prefix|..] == m.hostName
  {
    Prefix + m.hostName
  }

  /** Two tags are equal exactly when the host names are. */
  lemma DataSourceIdentifiesHost(m1: Machine, m2: Machine)
    ensures DataSource(m1) == DataSource(m2) <==> m1.hostName == m2.hostName
  {
    if DataSource(m1) == DataSource(m2) {
      assert m1.hostName == DataSource(m1)[|Prefix|..] == DataSource(m2)[|Prefix|..] == m2.hostName;
    }
  }
}
