/** The typed view of one validated inventory entry: a host name with its
    address and its role in the cluster. */
module Nodes {

  datatype Role = Control | Worker

  datatype Host = Host(name: string, ip: string, role: Role)

  /** The role's spelling in the input file. */
  function RoleName(r: Role): string
  {
    match r
    case Control => "control"
    case Worker => "worker"
  }

  /** The host names, in order. */
  function Names(hosts: seq<Host>): seq<string>
  {
    if hosts == [] then [] else [hosts[0].name] + Names(hosts[1..])
  }

  /** The names of the hosts that have role `r`, in order. */
  function NamesWithRole(hosts: seq<Host>, r: Role): seq<string>
  {
    if hosts == [] then []
    else (if hosts[0].role == r then [hosts[0].name] else []) + NamesWithRole(hosts[1..], r)
  }

  /** No two hosts share a name (the names were the keys of one object). */
  predicate DistinctNames(hosts: seq<Host>)
  {
    forall i, j :: 0 <= i < j < |hosts| ==> hosts[i].name != hosts[j].name
  }

  /** The names of two host lists put together are their names put
      together. */
  lemma {:induction false} NamesAppend(a: seq<Host>, b: seq<Host>)
    ensures Names(a + b) == Names(a) + Names(b)
  {
    if a == [] {
      assert a + b == b;
    } else {
      assert (a + b)[1..] == a[1..] + b;
      NamesAppend(a[1..], b);
    }
  }

  /** Filtering distributes over concatenation; the loops that build the
      role lists rely on it. */
  lemma {:induction false} NamesWithRoleAppend(a: seq<Host>, b: seq<Host>, r: Role)
    ensures NamesWithRole(a + b, r) == NamesWithRole(a, r) + NamesWithRole(b, r)
  {
    if a == [] {
      assert a + b == b;
    } else {
      assert (a + b)[1..] == a[1..] + b;
      NamesWithRoleAppend(a[1..], b, r);
    }
  }

  /** A name is listed under role `r` exactly when some host has that name
      and that role. */
  lemma {:induction false} InNamesWithRole(hosts: seq<Host>, r: Role, n: string)
    ensures n in NamesWithRole(hosts, r) <==>
            exists i :: 0 <= i < |hosts| && hosts[i].name == n && hosts[i].role == r
  {
    if hosts != [] {
      InNamesWithRole(hosts[1..], r, n);
      if exists i :: 0 <= i < |hosts[1..]| && hosts[1..][i].name == n && hosts[1..][i].role == r {
        var i :| 0 <= i < |hosts[1..]| && hosts[1..][i].name == n && hosts[1..][i].role == r;
        assert hosts[i + 1] == hosts[1..][i];
      }
      if exists i :: 0 <= i < |hosts| && hosts[i].name == n && hosts[i].role == r {
        var i :| 0 <= i < |hosts| && hosts[i].name == n && hosts[i].role == r;
        if i > 0 {
          assert hosts[1..][i - 1] == hosts[i];
        }
      }
    }
  }

  /** The two role lists together hold every name, each as often as in the
      input: the control and worker lists partition the hosts. */
  lemma {:induction false} RolesPartitionNames(hosts: seq<Host>)
    ensures multiset(NamesWithRole(hosts, Control)) + multiset(NamesWithRole(hosts, Worker))
            == multiset(Names(hosts))
  {
    if hosts != [] {
      RolesPartitionNames(hosts[1..]);
    }
  }

  /** Distinct names occur at most once each. */
  lemma {:induction false} DistinctNamesOccurOnce(hosts: seq<Host>, n: string)
    requires DistinctNames(hosts)
    ensures multiset(Names(hosts))[n] == if n in Names(hosts) then 1 else 0
  {
    if hosts != [] {
      assert DistinctNames(hosts[1..]) by {
        forall i, j | 0 <= i < j < |hosts[1..]| ensures hosts[1..][i].name != hosts[1..][j].name {
          assert hosts[1..][i] == hosts[i + 1] && hosts[1..][j] == hosts[j + 1];
        }
      }
      DistinctNamesOccurOnce(hosts[1..], n);
      if n == hosts[0].name {
        NamesAreHostNames(hosts[1..], n);
        assert n !in Names(hosts[1..]) by {
          forall i | 0 <= i < |hosts[1..]| ensures hosts[1..][i].name != n {
            assert hosts[1..][i] == hosts[i + 1];
          }
        }
      }
    }
  }

  /** A name is among the names exactly when some host carries it. */
  lemma {:induction false} NamesAreHostNames(hosts: seq<Host>, n: string)
    ensures n in Names(hosts) <==> exists i :: 0 <= i < |hosts| && hosts[i].name == n
  {
    if hosts != [] {
      NamesAreHostNames(hosts[1..], n);
      if exists i :: 0 <= i < |hosts[1..]| && hosts[1..][i].name == n {
        var i :| 0 <= i < |hosts[1..]| && hosts[1..][i].name == n;
        assert hosts[i + 1] == hosts[1..][i];
      }
      if exists i :: 0 <= i < |hosts| && hosts[i].name == n {
        var i :| 0 <= i < |hosts| && hosts[i].name == n;
        if i > 0 {
          assert hosts[1..][i - 1] == hosts[i];
        }
      }
    }
  }
}
