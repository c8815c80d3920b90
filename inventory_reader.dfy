/** Reading an INI inventory back into its groups. It serves as the inverse
    the rendered text is checked against: reading what `render_inventory`
    writes gives back exactly the six groups, in order, with their bodies. */
module InventoryReader {
  import opened Text
  import opened Nodes
  import opened HostSort
  import opened Inventory

  datatype Section = Section(header: string, body: seq<string>)

  predicate IsHeader(line: string)
  {
    |line| > 0 && line[0] == '['
  }

  /** A line that belongs to the body of the group opened last. */
  predicate IsBodyLine(line: string)
  {
    line != "" && !IsHeader(line)
  }

  /** Reads lines into groups: a header line opens a group, any other
      non-blank line is added to the group opened last; blank lines, and
      lines before the first header, are skipped. */
  function ParseSections(lines: seq<string>): seq<Section>
  {
    if lines == [] then []
    else
      var init := ParseSections(lines[..|lines| - 1]);
      var line := lines[|lines| - 1];
      if line == "" then init
      else if IsHeader(line) then init + [Section(line, [])]
      else if init == [] then init
      else init[..|init| - 1] + [Section(init[|init| - 1].header, init[|init| - 1].body + [line])]
  }

  function ReadInventory(text: string): seq<Section>
  {
    ParseSections(Split('\n', text))
  }

  /** A header line opens a new, empty group. */
  lemma ParseHeaderLine(lines: seq<string>, header: string)
    requires IsHeader(header)
    ensures ParseSections(lines + [header]) == ParseSections(lines) + [Section(header, [])]
  {
    assert (lines + [header])[..|lines|] == lines;
  }

  /** A body line is added to the group opened last. */
  lemma ParseBodyLine(lines: seq<string>, line: string)
    requires IsBodyLine(line) && ParseSections(lines) != []
    ensures var sections := ParseSections(lines);
      ParseSections(lines + [line])
      == sections[..|sections| - 1] + [Section(sections[|sections| - 1].header, sections[|sections| - 1].body + [line])]
  {
    assert (lines + [line])[..|lines|] == lines;
  }

  /** A header followed by body lines reads as one group holding them. */
  lemma {:induction false} ParseHeaderAndBody(prefix: seq<string>, header: string, body: seq<string>)
    requires IsHeader(header)
    requires forall i :: 0 <= i < |body| ==> IsBodyLine(body[i])
    ensures ParseSections(prefix + [header] + body) == ParseSections(prefix) + [Section(header, body)]
  {
    if body == [] {
      ParseHeaderLine(prefix, header);
      assert prefix + [header] + body == prefix + [header];
    } else {
      var init, last := body[..|body| - 1], body[|body| - 1];
      var lines := prefix + [header] + init;
      assert lines + [last] == prefix + [header] + body;
      assert ParseSections(lines + [last]) == ParseSections(prefix) + [Section(header, body)] by {
        assert forall i :: 0 <= i < |init| ==> IsBodyLine(init[i]);
        ParseHeaderAndBody(prefix, header, init);
        var sections := ParseSections(prefix) + [Section(header, init)];
        ParseBodyLine(lines, last);
        assert sections[..|sections| - 1] == ParseSections(prefix);
        assert init + [last] == body;
      }
    }
  }

  /** A group, blank line included, reads as one section. */
  lemma ParseGroup(prefix: seq<string>, header: string, body: seq<string>)
    requires IsHeader(header)
    requires forall i :: 0 <= i < |body| ==> IsBodyLine(body[i])
    ensures ParseSections(prefix + Group(header, body)) == ParseSections(prefix) + [Section(header, body)]
  {
    var lines := prefix + Group(header, body);
    assert lines[..|lines| - 1] == prefix + [header] + body;
    ParseHeaderAndBody(prefix, header, body);
  }

  /** A host whose fields cannot be mistaken for INI structure: its name is
      non-empty, does not open with `[`, and neither name nor address holds
      a newline. */
  predicate PlainHost(h: Host)
  {
    h.name != "" && h.name[0] != '[' && '\n' !in h.name && '\n' !in h.ip
  }

  /** Every sorted host is one of the input hosts. */
  lemma SortedHostIsInput(nodes: seq<Host>, i: nat)
    requires i < |SortHosts(nodes)|
    ensures exists j :: 0 <= j < |nodes| && nodes[j] == SortHosts(nodes)[i]
  {
    SortHostsCorrect(nodes);
    assert SortHosts(nodes)[i] in multiset(nodes);
  }

  /** Every listed control or worker name is the name of an input host. */
  lemma ListedNameIsInputName(nodes: seq<Host>, r: Role, n: string)
    requires n in NamesWithRole(SortHosts(nodes), r)
    ensures exists j :: 0 <= j < |nodes| && nodes[j].name == n
  {
    InNamesWithRole(SortHosts(nodes), r, n);
    var i :| 0 <= i < |SortHosts(nodes)| && SortHosts(nodes)[i].name == n && SortHosts(nodes)[i].role == r;
    SortedHostIsInput(nodes, i);
  }

  /** Every line of a group body built from plain hosts is a body line
      without a newline. */
  lemma RoleListLinesPlain(nodes: seq<Host>, r: Role)
    requires forall j :: 0 <= j < |nodes| ==> PlainHost(nodes[j])
    ensures forall i :: 0 <= i < |NamesWithRole(SortHosts(nodes), r)| ==>
              IsBodyLine(NamesWithRole(SortHosts(nodes), r)[i]) && '\n' !in NamesWithRole(SortHosts(nodes), r)[i]
  {
    var ns := NamesWithRole(SortHosts(nodes), r);
    forall i | 0 <= i < |ns| ensures IsBodyLine(ns[i]) && '\n' !in ns[i] {
      ListedNameIsInputName(nodes, r, ns[i]);
    }
  }

  /** The `[all]` line of a plain host starts with its name and holds no
      newline. */
  lemma HostLinePlain(h: Host, isControl: bool, ansibleUser: string, ansiblePort: string, become: bool)
    requires PlainHost(h)
    requires '\n' !in ansibleUser && '\n' !in ansiblePort
    ensures |HostLine(h, isControl, ansibleUser, ansiblePort, become)| >= |h.name|
    ensures HostLine(h, isControl, ansibleUser, ansiblePort, become)[..|h.name|] == h.name
    ensures IsBodyLine(HostLine(h, isControl, ansibleUser, ansiblePort, become))
    ensures '\n' !in HostLine(h, isControl, ansibleUser, ansiblePort, become)
  {
    var parts := HostParts(h, isControl, ansibleUser, ansiblePort, become);
    var line := HostLine(h, isControl, ansibleUser, ansiblePort, become);
    JoinStartsWithFirst(' ', parts);
    assert line[..|h.name|] == h.name;
    assert line[0] == h.name[0];
    forall k | 0 <= k < |parts| ensures '\n' !in parts[k] {
      if k < 4 {
        assert parts[k] in parts[..4];
      }
    }
    JoinAvoids(' ', parts, '\n');
  }

  /** Every `[all]` line of plain hosts is a body line without a newline. */
  lemma HostLinesPlain(nodes: seq<Host>, controls: seq<string>, ansibleUser: string, ansiblePort: string, become: bool)
    requires forall j :: 0 <= j < |nodes| ==> PlainHost(nodes[j])
    requires '\n' !in ansibleUser && '\n' !in ansiblePort
    ensures forall i :: 0 <= i < |SortHosts(nodes)| ==>
              var line := AllLines(SortHosts(nodes), controls, ansibleUser, ansiblePort, become)[i];
              IsBodyLine(line) && '\n' !in line
  {
    var order := SortHosts(nodes);
    var all := AllLines(order, controls, ansibleUser, ansiblePort, become);
    forall i | 0 <= i < |order| ensures IsBodyLine(all[i]) && '\n' !in all[i] {
      SortedHostIsInput(nodes, i);
      HostLinePlain(order[i], order[i].name in controls, ansibleUser, ansiblePort, become);
    }
  }

  /** No line holds a newline. */
  predicate SingleLines(lines: seq<string>)
  {
    forall i :: 0 <= i < |lines| ==> '\n' !in lines[i]
  }

  lemma SingleLinesConcat(a: seq<string>, b: seq<string>)
    requires SingleLines(a) && SingleLines(b)
    ensures SingleLines(a + b)
  {
    forall i | 0 <= i < |a + b| ensures '\n' !in (a + b)[i] {
      if i >= |a| {
        assert (a + b)[i] == b[i - |a|];
      }
    }
  }

  lemma SingleLinesGroup(header: string, body: seq<string>)
    requires '\n' !in header && SingleLines(body)
    ensures SingleLines(Group(header, body))
  {
    SingleLinesConcat([header], body);
    SingleLinesConcat([header] + body, [""]);
  }

  /** Six groups whose bodies are made of body lines read back as those
      groups. */
  lemma ParseSixGroups(h1: string, b1: seq<string>, h2: string, b2: seq<string>, h3: string, b3: seq<string>,
                       h4: string, b4: seq<string>, h5: string, b5: seq<string>, h6: string, b6: seq<string>)
    requires IsHeader(h1) && IsHeader(h2) && IsHeader(h3) && IsHeader(h4) && IsHeader(h5) && IsHeader(h6)
    requires forall i :: 0 <= i < |b1| ==> IsBodyLine(b1[i])
    requires forall i :: 0 <= i < |b2| ==> IsBodyLine(b2[i])
    requires forall i :: 0 <= i < |b3| ==> IsBodyLine(b3[i])
    requires forall i :: 0 <= i < |b4| ==> IsBodyLine(b4[i])
    requires forall i :: 0 <= i < |b5| ==> IsBodyLine(b5[i])
    requires forall i :: 0 <= i < |b6| ==> IsBodyLine(b6[i])
    ensures ParseSections(Group(h1, b1) + Group(h2, b2) + Group(h3, b3) + Group(h4, b4) + Group(h5, b5) + Group(h6, b6))
            == [Section(h1, b1), Section(h2, b2), Section(h3, b3), Section(h4, b4), Section(h5, b5), Section(h6, b6)]
  {
    var g1 := Group(h1, b1);
    var g2 := g1 + Group(h2, b2);
    var g3 := g2 + Group(h3, b3);
    var g4 := g3 + Group(h4, b4);
    var g5 := g4 + Group(h5, b5);
    assert [] + g1 == g1;
    ParseGroup([], h1, b1);
    ParseGroup(g1, h2, b2);
    ParseGroup(g2, h3, b3);
    ParseGroup(g3, h4, b4);
    ParseGroup(g4, h5, b5);
    ParseGroup(g5, h6, b6);
  }

  /** Joining six groups with newlines and reading the text back gives
      the groups, provided no header holds a newline and no body line is
      blank, a header or holds a newline. */
  lemma ReadSixGroups(h1: string, b1: seq<string>, h2: string, b2: seq<string>, h3: string, b3: seq<string>,
                      h4: string, b4: seq<string>, h5: string, b5: seq<string>, h6: string, b6: seq<string>)
    requires IsHeader(h1) && IsHeader(h2) && IsHeader(h3) && IsHeader(h4) && IsHeader(h5) && IsHeader(h6)
    requires '\n' !in h1 && '\n' !in h2 && '\n' !in h3 && '\n' !in h4 && '\n' !in h5 && '\n' !in h6
    requires forall i :: 0 <= i < |b1| ==> IsBodyLine(b1[i]) && '\n' !in b1[i]
    requires forall i :: 0 <= i < |b2| ==> IsBodyLine(b2[i]) && '\n' !in b2[i]
    requires forall i :: 0 <= i < |b3| ==> IsBodyLine(b3[i]) && '\n' !in b3[i]
    requires forall i :: 0 <= i < |b4| ==> IsBodyLine(b4[i]) && '\n' !in b4[i]
    requires forall i :: 0 <= i < |b5| ==> IsBodyLine(b5[i]) && '\n' !in b5[i]
    requires forall i :: 0 <= i < |b6| ==> IsBodyLine(b6[i]) && '\n' !in b6[i]
    ensures ReadInventory(Join('\n', Group(h1, b1) + Group(h2, b2) + Group(h3, b3) + Group(h4, b4) + Group(h5, b5) + Group(h6, b6)))
            == [Section(h1, b1), Section(h2, b2), Section(h3, b3), Section(h4, b4), Section(h5, b5), Section(h6, b6)]
  {
    var g1, g2, g3 := Group(h1, b1), Group(h2, b2), Group(h3, b3);
    var g4, g5, g6 := Group(h4, b4), Group(h5, b5), Group(h6, b6);
    SingleLinesGroup(h1, b1);
    SingleLinesGroup(h2, b2);
    SingleLinesGroup(h3, b3);
    SingleLinesGroup(h4, b4);
    SingleLinesGroup(h5, b5);
    SingleLinesGroup(h6, b6);
    SingleLinesConcat(g1, g2);
    SingleLinesConcat(g1 + g2, g3);
    SingleLinesConcat(g1 + g2 + g3, g4);
    SingleLinesConcat(g1 + g2 + g3 + g4, g5);
    SingleLinesConcat(g1 + g2 + g3 + g4 + g5, g6);
    SplitJoin('\n', g1 + g2 + g3 + g4 + g5 + g6);
    ParseSixGroups(h1, b1, h2, b2, h3, b3, h4, b4, h5, b5, h6, b6);
  }

  /** The inventory's six groups, joined with newlines, read back as those
      groups when no body line is blank, a header or holds a newline. */
  lemma ReadJoinedGroups(all: seq<string>, controls: seq<string>, workers: seq<string>)
    requires forall i :: 0 <= i < |all| ==> IsBodyLine(all[i]) && '\n' !in all[i]
    requires forall i :: 0 <= i < |controls| ==> IsBodyLine(controls[i]) && '\n' !in controls[i]
    requires forall i :: 0 <= i < |workers| ==> IsBodyLine(workers[i]) && '\n' !in workers[i]
    ensures ReadInventory(Join('\n',
              Group("[all]", all) + Group("[kube_control_plane]", controls) + Group("[etcd]", controls)
              + Group("[kube_node]", workers) + Group("[calico_rr]", [])
              + Group("[k8s_cluster:children]", ClusterChildren))) ==
      [ Section("[all]", all),
        Section("[kube_control_plane]", controls),
        Section("[etcd]", controls),
        Section("[kube_node]", workers),
        Section("[calico_rr]", []),
        Section("[k8s_cluster:children]", ClusterChildren) ]
  {
    assert forall i :: 0 <= i < |ClusterChildren| ==> IsBodyLine(ClusterChildren[i]) && '\n' !in ClusterChildren[i];
    ReadSixGroups("[all]", all, "[kube_control_plane]", controls, "[etcd]", controls,
                  "[kube_node]", workers, "[calico_rr]", [], "[k8s_cluster:children]", ClusterChildren);
  }

  /** Reading back a rendered inventory gives its six groups in their fixed
      order: `[all]` with one line per host in key order, the control plane,
      `[etcd]` with the very same names, the workers, an empty
      `[calico_rr]`, and the three child groups of `k8s_cluster`. */
  lemma ReadBackRendered(nodes: seq<Host>, ansibleUser: string, ansiblePort: string, become: bool)
    requires Render(nodes, ansibleUser, ansiblePort, become).Ok?
    requires forall j :: 0 <= j < |nodes| ==> PlainHost(nodes[j])
    requires '\n' !in ansibleUser && '\n' !in ansiblePort
    ensures ReadInventory(Render(nodes, ansibleUser, ansiblePort, become).value) ==
      [ Section("[all]", AllLines(SortHosts(nodes), Controls(nodes), ansibleUser, ansiblePort, become)),
        Section("[kube_control_plane]", Controls(nodes)),
        Section("[etcd]", Controls(nodes)),
        Section("[kube_node]", Workers(nodes)),
        Section("[calico_rr]", []),
        Section("[k8s_cluster:children]", ["kube_control_plane", "kube_node", "calico_rr"]) ]
  {
    var order, controls, workers := SortHosts(nodes), Controls(nodes), Workers(nodes);
    var all := AllLines(order, controls, ansibleUser, ansiblePort, become);
    HostLinesPlain(nodes, controls, ansibleUser, ansiblePort, become);
    RoleListLinesPlain(nodes, Control);
    RoleListLinesPlain(nodes, Worker);
    ReadJoinedGroups(all, controls, workers);
  }

  /** Six groups joined with newlines split back into their lines when no
      header and no body line holds a newline. */
  lemma SplitSixGroups(h1: string, b1: seq<string>, h2: string, b2: seq<string>, h3: string, b3: seq<string>,
                       h4: string, b4: seq<string>, h5: string, b5: seq<string>, h6: string, b6: seq<string>)
    requires '\n' !in h1 && '\n' !in h2 && '\n' !in h3 && '\n' !in h4 && '\n' !in h5 && '\n' !in h6
    requires SingleLines(b1) && SingleLines(b2) && SingleLines(b3)
    requires SingleLines(b4) && SingleLines(b5) && SingleLines(b6)
    ensures Split('\n', Join('\n', Group(h1, b1) + Group(h2, b2) + Group(h3, b3) + Group(h4, b4) + Group(h5, b5) + Group(h6, b6)))
            == Group(h1, b1) + Group(h2, b2) + Group(h3, b3) + Group(h4, b4) + Group(h5, b5) + Group(h6, b6)
  {
    var g1, g2, g3 := Group(h1, b1), Group(h2, b2), Group(h3, b3);
    var g4, g5, g6 := Group(h4, b4), Group(h5, b5), Group(h6, b6);
    SingleLinesGroup(h1, b1);
    SingleLinesGroup(h2, b2);
    SingleLinesGroup(h3, b3);
    SingleLinesGroup(h4, b4);
    SingleLinesGroup(h5, b5);
    SingleLinesGroup(h6, b6);
    SingleLinesConcat(g1, g2);
    SingleLinesConcat(g1 + g2, g3);
    SingleLinesConcat(g1 + g2 + g3, g4);
    SingleLinesConcat(g1 + g2 + g3 + g4, g5);
    SingleLinesConcat(g1 + g2 + g3 + g4 + g5, g6);
    SplitJoin('\n', g1 + g2 + g3 + g4 + g5 + g6);
  }

  /** The inventory's lines split back out of their newline-joined text
      when no host line and no listed name holds a newline. */
  lemma InventoryLinesSplit(order: seq<Host>, controls: seq<string>, workers: seq<string>,
                            ansibleUser: string, ansiblePort: string, become: bool)
    requires SingleLines(AllLines(order, controls, ansibleUser, ansiblePort, become))
    requires SingleLines(controls) && SingleLines(workers)
    ensures Split('\n', Join('\n', InventoryLines(order, controls, workers, ansibleUser, ansiblePort, become)))
            == InventoryLines(order, controls, workers, ansibleUser, ansiblePort, become)
  {
    assert SingleLines(ClusterChildren);
    SplitSixGroups("[all]", AllLines(order, controls, ansibleUser, ansiblePort, become),
                   "[kube_control_plane]", controls, "[etcd]", controls,
                   "[kube_node]", workers, "[calico_rr]", [], "[k8s_cluster:children]", ClusterChildren);
  }

  /** The rendered text splits on newlines into exactly the inventory's
      lines: each group's header, its body, and the blank line after it. */
  lemma RenderedLines(nodes: seq<Host>, ansibleUser: string, ansiblePort: string, become: bool)
    requires Render(nodes, ansibleUser, ansiblePort, become).Ok?
    requires forall j :: 0 <= j < |nodes| ==> PlainHost(nodes[j])
    requires '\n' !in ansibleUser && '\n' !in ansiblePort
    ensures Split('\n', Render(nodes, ansibleUser, ansiblePort, become).value) ==
            InventoryLines(SortHosts(nodes), Controls(nodes), Workers(nodes), ansibleUser, ansiblePort, become)
  {
    var order, controls, workers := SortHosts(nodes), Controls(nodes), Workers(nodes);
    HostLinesPlain(nodes, controls, ansibleUser, ansiblePort, become);
    RoleListLinesPlain(nodes, Control);
    RoleListLinesPlain(nodes, Worker);
    InventoryLinesSplit(order, controls, workers, ansibleUser, ansiblePort, become);
  }

  /** The tokens of a host line split back out of it when no field holds a
      space. */
  lemma HostLineTokens(h: Host, isControl: bool, ansibleUser: string, ansiblePort: string, become: bool)
    requires ' ' !in h.name && ' ' !in h.ip && ' ' !in ansibleUser && ' ' !in ansiblePort
    ensures Split(' ', HostLine(h, isControl, ansibleUser, ansiblePort, become))
            == HostParts(h, isControl, ansibleUser, ansiblePort, become)
  {
    var parts := HostParts(h, isControl, ansibleUser, ansiblePort, become);
    forall k | 0 <= k < |parts| ensures ' ' !in parts[k] {
      if k < 4 {
        assert parts[k] in parts[..4];
      }
    }
    SplitJoin(' ', parts);
  }
}
