/** `render_inventory`: sorts the hosts, splits them into control-plane and
    worker lists, refuses a cluster without either, and writes the INI
    inventory: `[all]` with one line per host, then `[kube_control_plane]`,
    `[etcd]` (the same hosts: etcd is stacked on the control plane),
    `[kube_node]`, an empty `[calico_rr]` and `[k8s_cluster:children]`,
    each group followed by a blank line. */
module Inventory {
  import opened Wrappers
  import opened Text
  import opened Nodes
  import opened HostSort

  datatype RenderError = NoControlNodes | NoWorkerNodes

  /** The tokens of a host's `[all]` line: the name, its address twice and
      the port; then the user if one is given, the become flag if set, and
      the etcd member name for a control-plane host. */
  function HostParts(h: Host, isControl: bool, ansibleUser: string, ansiblePort: string, become: bool)
    : (parts: seq<string>)
    ensures |parts| == 4 + (if ansibleUser != "" then 1 else 0) + (if become then 1 else 0)
                         + (if isControl then 1 else 0)
    ensures parts[..4] == [h.name, "ansible_host=" + h.ip, "ip=" + h.ip, "ansible_port=" + ansiblePort]
    ensures ansibleUser != "" ==> parts[4] == "ansible_user=" + ansibleUser
    ensures become ==> parts[|parts| - (if isControl then 2 else 1)] == "ansible_become=true"
    ensures isControl <==> parts[|parts| - 1] == "etcd_member_name=" + h.name
  {
    var fixed := [h.name, "ansible_host=" + h.ip, "ip=" + h.ip, "ansible_port=" + ansiblePort];
    var user := if ansibleUser != "" then ["ansible_user=" + ansibleUser] else [];
    var bec := if become then ["ansible_become=true"] else [];
    var etcd := if isControl then ["etcd_member_name=" + h.name] else [];
    var parts := fixed + user + bec + etcd;
    assert parts[..4] == fixed;
    assert !isControl ==> parts[|parts| - 1][0] == 'a';
    parts
  }

  /** A host's `[all]` line: its tokens joined by single spaces. */
  function HostLine(h: Host, isControl: bool, ansibleUser: string, ansiblePort: string, become: bool): string
  {
    Join(' ', HostParts(h, isControl, ansibleUser, ansiblePort, become))
  }

  /** The body of `[all]`: one line per host, in the given order; a host is
      marked as an etcd member when its name is in `controls`. */
  function AllLines(order: seq<Host>, controls: seq<string>, ansibleUser: string, ansiblePort: string,
                    become: bool): (lines: seq<string>)
    ensures |lines| == |order|
  {
    seq(|order|, i requires 0 <= i < |order| =>
      HostLine(order[i], order[i].name in controls, ansibleUser, ansiblePort, become))
  }

  /** A group: its header, its body, and a blank line. */
  function Group(header: string, body: seq<string>): seq<string>
  {
    [header] + body + [""]
  }

  const ClusterChildren: seq<string> := ["kube_control_plane", "kube_node", "calico_rr"]

  /** All lines of the inventory, groups in their fixed order. */
  function InventoryLines(order: seq<Host>, controls: seq<string>, workers: seq<string>,
                          ansibleUser: string, ansiblePort: string, become: bool): seq<string>
  {
    Group("[all]", AllLines(order, controls, ansibleUser, ansiblePort, become))
    + Group("[kube_control_plane]", controls)
    + Group("[etcd]", controls)
    + Group("[kube_node]", workers)
    + Group("[calico_rr]", [])
    + Group("[k8s_cluster:children]", ClusterChildren)
  }

  /** The control-plane names in sorted order. */
  function Controls(nodes: seq<Host>): seq<string>
  {
    NamesWithRole(SortHosts(nodes), Control)
  }

  /** The worker names in sorted order. */
  function Workers(nodes: seq<Host>): seq<string>
  {
    NamesWithRole(SortHosts(nodes), Worker)
  }

  /** What `render_inventory` returns or raises. */
  function Render(nodes: seq<Host>, ansibleUser: string, ansiblePort: string, become: bool)
    : Result<string, RenderError>
  {
    if |Controls(nodes)| == 0 then Err(NoControlNodes)
    else if |Workers(nodes)| == 0 then Err(NoWorkerNodes)
    else Ok(Join('\n', InventoryLines(SortHosts(nodes), Controls(nodes), Workers(nodes),
                                      ansibleUser, ansiblePort, become)))
  }

  /** The first loop of `render_inventory`: each host, in the given order,
      is appended to the control list when its role is control and to the
      worker list otherwise. */
  method PartitionByRole(order: seq<Host>) returns (controls: seq<string>, workers: seq<string>)
    ensures controls == NamesWithRole(order, Control)
    ensures workers == NamesWithRole(order, Worker)
  {
    controls, workers := [], [];
    var i := 0;
    while i < |order|
      invariant 0 <= i <= |order|
      invariant controls == NamesWithRole(order[..i], Control)
      invariant workers == NamesWithRole(order[..i], Worker)
    {
      assert order[..i + 1] == order[..i] + [order[i]];
      NamesWithRoleAppend(order[..i], [order[i]], Control);
      NamesWithRoleAppend(order[..i], [order[i]], Worker);
      assert [order[i]][1..] == [];
      if order[i].role == Control {
        controls := controls + [order[i].name];
      } else {
        workers := workers + [order[i].name];
      }
      i := i + 1;
    }
    assert order[..|order|] == order;
  }

  /** The second loop of `render_inventory`: one line per host, built from
      its tokens, in the given order. */
  method HostLines(order: seq<Host>, controls: seq<string>, ansibleUser: string, ansiblePort: string,
                   become: bool) returns (lines: seq<string>)
    ensures lines == AllLines(order, controls, ansibleUser, ansiblePort, become)
  {
    lines := [];
    var i := 0;
    while i < |order|
      invariant 0 <= i <= |order|
      invariant lines == AllLines(order[..i], controls, ansibleUser, ansiblePort, become)
    {
      var host := order[i];
      var parts := [host.name, "ansible_host=" + host.ip, "ip=" + host.ip, "ansible_port=" + ansiblePort];
      if ansibleUser != "" {
        parts := parts + ["ansible_user=" + ansibleUser];
      }
      if become {
        parts := parts + ["ansible_become=true"];
      }
      if host.name in controls {
        parts := parts + ["etcd_member_name=" + host.name];
      }
      assert parts == HostParts(host, host.name in controls, ansibleUser, ansiblePort, become);
      lines := lines + [Join(' ', parts)];
      assert order[..i + 1][..i] == order[..i];
      i := i + 1;
    }
    assert order[..|order|] == order;
  }

  /** `render_inventory`: sort, partition, refuse an empty role, then append
      the groups line by line and join the lines with newlines. */
  method RenderInventory(nodes: seq<Host>, ansibleUser: string, ansiblePort: string, become: bool)
    returns (r: Result<string, RenderError>)
    ensures r == Render(nodes, ansibleUser, ansiblePort, become)
  {
    var order := SortHosts(nodes);
    var controls, workers := PartitionByRole(order);

    if |controls| == 0 {
      return Err(NoControlNodes);
    }
    if |workers| == 0 {
      return Err(NoWorkerNodes);
    }

    var lines: seq<string> := ["[all]"];
    var hostLines := HostLines(order, controls, ansibleUser, ansiblePort, become);
    lines := lines + hostLines;
    lines := lines + [""];
    assert lines == Group("[all]", hostLines);
    ghost var done := lines;

    lines := lines + ["[kube_control_plane]"];
    lines := lines + controls;
    lines := lines + [""];
    assert lines == done + Group("[kube_control_plane]", controls);
    done := lines;

    lines := lines + ["[etcd]"];
    lines := lines + controls;
    lines := lines + [""];
    assert lines == done + Group("[etcd]", controls);
    done := lines;

    lines := lines + ["[kube_node]"];
    lines := lines + workers;
    lines := lines + [""];
    assert lines == done + Group("[kube_node]", workers);
    done := lines;

    lines := lines + ["[calico_rr]"];
    lines := lines + [""];
    assert lines == done + Group("[calico_rr]", []);
    done := lines;

    lines := lines + ["[k8s_cluster:children]"];
    lines := lines + ["kube_control_plane"];
    lines := lines + ["kube_node"];
    lines := lines + ["calico_rr"];
    lines := lines + [""];
    assert lines == done + Group("[k8s_cluster:children]", ClusterChildren);
    assert lines == InventoryLines(order, controls, workers, ansibleUser, ansiblePort, become);
    r := Ok(Join('\n', lines));
  }

  /** A sorted role list is empty exactly when no input host has that role. */
  lemma RoleListEmpty(nodes: seq<Host>, r: Role)
    ensures |NamesWithRole(SortHosts(nodes), r)| == 0 <==> forall i :: 0 <= i < |nodes| ==> nodes[i].role != r
  {
    SortHostsNamesWithRole(nodes, r);
    assert |NamesWithRole(SortHosts(nodes), r)| == |multiset(NamesWithRole(nodes, r))|;
    var ns := NamesWithRole(nodes, r);
    if |ns| > 0 {
      InNamesWithRole(nodes, r, ns[0]);
    }
    if exists i :: 0 <= i < |nodes| && nodes[i].role == r {
      var i :| 0 <= i < |nodes| && nodes[i].role == r;
      InNamesWithRole(nodes, r, nodes[i].name);
    }
  }

  /** Rendering fails exactly when the input has no control host or no
      worker host; a missing control plane is reported first. */
  lemma RenderFailsIff(nodes: seq<Host>, ansibleUser: string, ansiblePort: string, become: bool)
    ensures Render(nodes, ansibleUser, ansiblePort, become) == Err(NoControlNodes)
            <==> forall i :: 0 <= i < |nodes| ==> nodes[i].role != Control
    ensures Render(nodes, ansibleUser, ansiblePort, become) == Err(NoWorkerNodes)
            <==> && (exists i :: 0 <= i < |nodes| && nodes[i].role == Control)
                 && (forall i :: 0 <= i < |nodes| ==> nodes[i].role != Worker)
    ensures Render(nodes, ansibleUser, ansiblePort, become).Ok?
            <==> && (exists i :: 0 <= i < |nodes| && nodes[i].role == Control)
                 && (exists i :: 0 <= i < |nodes| && nodes[i].role == Worker)
  {
    RoleListEmpty(nodes, Control);
    RoleListEmpty(nodes, Worker);
  }

  /** The control and worker lists: the control-plane names and the worker
      names of the input, rearranged into key order, together holding every
      name as often as the input does. */
  lemma RoleListsPartition(nodes: seq<Host>)
    ensures multiset(Controls(nodes)) == multiset(NamesWithRole(nodes, Control))
    ensures multiset(Workers(nodes)) == multiset(NamesWithRole(nodes, Worker))
    ensures multiset(Controls(nodes)) + multiset(Workers(nodes)) == multiset(Names(nodes))
    ensures NamesSorted(Controls(nodes)) && NamesSorted(Workers(nodes))
  {
    SortHostsNamesWithRole(nodes, Control);
    SortHostsNamesWithRole(nodes, Worker);
    RolesPartitionNames(nodes);
    SortHostsCorrect(nodes);
    NamesWithRoleSorted(SortHosts(nodes), Control);
    NamesWithRoleSorted(SortHosts(nodes), Worker);
  }

  /** A name is in the control list exactly when an input host with that
      name has role control. */
  lemma ControlsAreControlHosts(nodes: seq<Host>, n: string)
    ensures n in Controls(nodes) <==> exists i :: 0 <= i < |nodes| && nodes[i].name == n && nodes[i].role == Control
  {
    RoleListsPartition(nodes);
    assert n in Controls(nodes) <==> n in multiset(NamesWithRole(nodes, Control));
    InNamesWithRole(nodes, Control, n);
  }

  /** With distinct host names, every name is in exactly one of the two
      lists, once, and nothing else is in either. */
  lemma EachHostListedOnce(nodes: seq<Host>, n: string)
    requires DistinctNames(nodes)
    ensures multiset(Controls(nodes))[n] + multiset(Workers(nodes))[n] == if n in Names(nodes) then 1 else 0
  {
    RoleListsPartition(nodes);
    DistinctNamesOccurOnce(nodes, n);
  }

  /** With distinct host names, the membership test `host in controls` that
      decides the etcd member token holds exactly for control hosts. */
  lemma EtcdTokenMarksControlHosts(nodes: seq<Host>, i: nat)
    requires DistinctNames(nodes) && i < |SortHosts(nodes)|
    ensures SortHosts(nodes)[i].name in Controls(nodes) <==> SortHosts(nodes)[i].role == Control
  {
    var h := SortHosts(nodes)[i];
    SortHostsCorrect(nodes);
    assert h in multiset(nodes);
    var j :| 0 <= j < |nodes| && nodes[j] == h;
    ControlsAreControlHosts(nodes, h.name);
    if h.name in Controls(nodes) {
      var k :| 0 <= k < |nodes| && nodes[k].name == h.name && nodes[k].role == Control;
      assert k == j;
    }
  }

  /** A successful rendering ends with a newline. */
  lemma RenderedTextEndsWithNewline(nodes: seq<Host>, ansibleUser: string, ansiblePort: string, become: bool)
    requires Render(nodes, ansibleUser, ansiblePort, become).Ok?
    ensures var text := Render(nodes, ansibleUser, ansiblePort, become).value;
            |text| > 0 && text[|text| - 1] == '\n'
  {
    var lines := InventoryLines(SortHosts(nodes), Controls(nodes), Workers(nodes), ansibleUser, ansiblePort, become);
    JoinTrailingEmpty('\n', lines);
  }
}
