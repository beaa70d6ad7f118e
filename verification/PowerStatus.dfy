/**
  Power status of client nodes (CNs): four passes over the wireless links that end in a CN.

  A pass consumes the answer to one Prometheus query, which may hold any rows, and takes the links it
  can classify out of the set that the next pass looks at.
 */
module PowerStatus {
  import opened Options

  datatype Status = InitUnreachable | NoAssocReqs | LinkAlive | CnPoweredOff | Unknown

  datatype NodeState = NodeState(nodeName: string, nodeMac: string, linkName: string, state: Status)

  datatype CnInfo = CnInfo(
    linkNames: set<string>,
    cnName: map<string, string>,
    cnMac: map<string, string>,
    dnMac: map<string, string>,
    cnToLink: map<string, string>,
    dnToCns: map<string, set<string>>)

  // A row of an answer: its label (a link name or a MAC address) if it has one, and
  // its value, unless that is a string which int() refuses, such as "0.033"
  datatype Row = Row(key: Option<string>, value: Option<int>)

  const MIN_TSF_COUNT := 5

  // ---------- the topology ----------

  datatype TopologyNode = TopologyNode(macAddr: string, isCn: bool, wlanMacs: seq<string>)
  datatype TopologyLink = TopologyLink(
    name: string, wireless: bool, aMac: string, aName: string, zMac: string, zName: string)

  // The CN end of a link, and the radio at the other end
  datatype CnEnd = CnEnd(cnWlan: string, cnName: string, dnWlan: string)

  function EndOf(link: TopologyLink, cns: set<string>): Option<CnEnd> {
    if !link.wireless then None
    else if link.aMac in cns then Some(CnEnd(link.aMac, link.aName, link.zMac))
    else if link.zMac in cns then Some(CnEnd(link.zMac, link.zName, link.aMac))
    else None
  }

  ghost predicate SameKeys(info: CnInfo) {
    info.cnName.Keys == info.linkNames && info.cnMac.Keys == info.linkNames && info.dnMac.Keys == info.linkNames
  }

  ghost predicate LinksListed(info: CnInfo) {
    forall l :: l in info.cnMac && l in info.dnMac ==>
      && info.cnMac[l] in info.cnToLink
      && info.dnMac[l] in info.dnToCns && info.cnMac[l] in info.dnToCns[info.dnMac[l]]
  }

  ghost predicate CnsListed(info: CnInfo) {
    forall c :: c in info.cnToLink ==> info.cnToLink[c] in info.cnMac && info.cnMac[info.cnToLink[c]] == c
  }

  ghost predicate NeighboursAreCns(info: CnInfo) {
    forall dn, c :: dn in info.dnToCns && c in info.dnToCns[dn] ==> c in info.cnToLink
  }

  // No lookup in the tables fails
  ghost predicate InfoOk(info: CnInfo) {
    SameKeys(info) && LinksListed(info) && NeighboursAreCns(info)
  }

  // Every table agrees with every other
  ghost predicate Consistent(info: CnInfo) {
    InfoOk(info) && CnsListed(info) && OnlyNeighbours(info)
  }

  predicate Connects(info: CnInfo, l: string, c: string, dn: string) {
    l in info.cnMac && l in info.dnMac && info.cnMac[l] == c && info.dnMac[l] == dn
  }

  // A CN is listed under a DN only because a link connects them
  ghost predicate OnlyNeighbours(info: CnInfo) {
    forall dn, c :: dn in info.dnToCns && c in info.dnToCns[dn] ==> exists l :: Connects(info, l, c, dn)
  }

  function Enter(info: CnInfo, link: string, cnName: string, cn: string, dn: string): CnInfo {
    info.(linkNames := info.linkNames + {link},
          cnName := info.cnName[link := cnName],
          cnMac := info.cnMac[link := cn],
          dnMac := info.dnMac[link := dn],
          cnToLink := info.cnToLink[cn := link],
          dnToCns := info.dnToCns[dn := (if dn in info.dnToCns then info.dnToCns[dn] else {}) + {cn}])
  }

  lemma EnterCns(info: CnInfo, link: string, cnName: string, cn: string, dn: string)
    requires CnsListed(info) && link !in info.cnMac
    ensures CnsListed(Enter(info, link, cnName, cn, dn))
  {
  }

  lemma EnterNeighbourCns(info: CnInfo, link: string, cnName: string, cn: string, dn: string)
    requires NeighboursAreCns(info)
    ensures NeighboursAreCns(Enter(info, link, cnName, cn, dn))
  {
  }

  lemma EnterLinks(info: CnInfo, link: string, cnName: string, cn: string, dn: string)
    requires LinksListed(info)
    ensures LinksListed(Enter(info, link, cnName, cn, dn))
  {
  }

  lemma EnterOk(info: CnInfo, link: string, cnName: string, cn: string, dn: string)
    requires InfoOk(info)
    ensures InfoOk(Enter(info, link, cnName, cn, dn))
  {
    EnterLinks(info, link, cnName, cn, dn);
    EnterNeighbourCns(info, link, cnName, cn, dn);
  }

  lemma EnterConsistent(info: CnInfo, link: string, cnName: string, cn: string, dn: string)
    requires Consistent(info) && link !in info.linkNames
    ensures Consistent(Enter(info, link, cnName, cn, dn))
  {
    EnterOk(info, link, cnName, cn, dn);
    EnterCns(info, link, cnName, cn, dn);
    EnterNeighbours(info, link, cnName, cn, dn);
  }

  lemma EnterNeighbours(info: CnInfo, link: string, cnName: string, cn: string, dn: string)
    requires OnlyNeighbours(info) && link !in info.cnMac && link !in info.dnMac
    ensures OnlyNeighbours(Enter(info, link, cnName, cn, dn))
  {
    var after := Enter(info, link, cnName, cn, dn);
    forall d, c | d in after.dnToCns && c in after.dnToCns[d]
      ensures exists l :: Connects(after, l, c, d)
    {
      if d in info.dnToCns && c in info.dnToCns[d] {
        var l :| Connects(info, l, c, d);
        assert Connects(after, l, c, d);
      } else {
        assert Connects(after, link, c, d);
      }
    }
  }

  predicate DistinctNames(links: seq<TopologyLink>) {
    forall i, j :: 0 <= i < j < |links| ==> links[i].name != links[j].name
  }

  function CnLinkNames(links: seq<TopologyLink>, cns: set<string>): set<string> {
    if links == [] then {}
    else
      var last := links[|links| - 1];
      CnLinkNames(links[..|links| - 1], cns) + if EndOf(last, cns).Some? then {last.name} else {}
  }

  // The tables hold the data of the link's ends
  predicate Describes(info: CnInfo, link: TopologyLink, cns: set<string>, wlanToNode: map<string, string>)
    requires cns <= wlanToNode.Keys
  {
    EndOf(link, cns).Some? ==>
      var end := EndOf(link, cns).value;
      && end.dnWlan in wlanToNode && end.cnWlan in cns
      && link.name in info.cnName && info.cnName[link.name] == end.cnName
      && Connects(info, link.name, wlanToNode[end.cnWlan], wlanToNode[end.dnWlan])
  }

  lemma {:induction false} NamesOfLinks(links: seq<TopologyLink>, cns: set<string>, name: string)
    requires name in CnLinkNames(links, cns)
    ensures exists l :: l in links && l.name == name
  {
    var front := links[..|links| - 1];
    if name in CnLinkNames(front, cns) {
      NamesOfLinks(front, cns, name);
    } else {
      assert links[|links| - 1] in links;
    }
  }

  // A wireless link with a CN end and a radio that belongs to no node
  predicate LacksRadio(link: TopologyLink, cns: set<string>, wlanToNode: map<string, string>) {
    && link.wireless && (link.aMac in cns || link.zMac in cns)
    && (link.aMac !in wlanToNode || link.zMac !in wlanToNode)
  }

  // None stands for the KeyError of a CN link whose other radio belongs to no node
  method GetCnInfo(nodes: seq<TopologyNode>, links: seq<TopologyLink>)
    returns (info: Option<CnInfo>, cns: set<string>, wlanToNode: map<string, string>)
    ensures cns == set n, w | n in nodes && n.isCn && w in n.wlanMacs :: w
    ensures OwnedBy(wlanToNode, nodes) && cns <= wlanToNode.Keys
    ensures info.None? <==> exists l :: l in links && LacksRadio(l, cns, wlanToNode)
    ensures info.Some? ==> BuiltFrom(info.value, links, |links|, cns, wlanToNode)
  {
    cns, wlanToNode := ReadNodes(nodes);
    info := ReadLinks(links, cns, wlanToNode);
  }

  // No later link to a CN bears the same name
  predicate LastOfItsName(links: seq<TopologyLink>, j: nat, n: nat, cns: set<string>)
    requires j < n <= |links|
  {
    forall k :: j < k < n && links[k].name == links[j].name ==> EndOf(links[k], cns).None?
  }

  // The tables after the first n links
  ghost predicate BuiltFrom(info: CnInfo, links: seq<TopologyLink>, n: nat, cns: set<string>,
                            wlanToNode: map<string, string>)
    requires n <= |links| && cns <= wlanToNode.Keys
  {
    && InfoOk(info) && (DistinctNames(links) ==> Consistent(info))
    && info.linkNames == CnLinkNames(links[..n], cns)
    && forall j :: 0 <= j < n && LastOfItsName(links, j, n, cns) ==> Describes(info, links[j], cns, wlanToNode)
  }

  lemma NameIsNew(links: seq<TopologyLink>, n: nat, cns: set<string>)
    requires DistinctNames(links) && n < |links|
    ensures links[n].name !in CnLinkNames(links[..n], cns)
  {
    if links[n].name in CnLinkNames(links[..n], cns) {
      NamesOfLinks(links[..n], cns, links[n].name);
    }
  }

  lemma LinkEntered(info: CnInfo, links: seq<TopologyLink>, n: nat, cns: set<string>, wlanToNode: map<string, string>,
                    end: CnEnd)
    requires n < |links| && cns <= wlanToNode.Keys
    requires BuiltFrom(info, links, n, cns, wlanToNode)
    requires EndOf(links[n], cns) == Some(end) && end.dnWlan in wlanToNode
    ensures BuiltFrom(Enter(info, links[n].name, end.cnName, wlanToNode[end.cnWlan], wlanToNode[end.dnWlan]),
                      links, n + 1, cns, wlanToNode)
  {
    var name, cn, dn := links[n].name, wlanToNode[end.cnWlan], wlanToNode[end.dnWlan];
    if DistinctNames(links) {
      NameIsNew(links, n, cns);
      EnterConsistent(info, name, end.cnName, cn, dn);
    }
    EnterOk(info, name, end.cnName, cn, dn);
    assert links[..n + 1][..n] == links[..n];
    forall j | 0 <= j < n + 1 && LastOfItsName(links, j, n + 1, cns)
      ensures Describes(Enter(info, name, end.cnName, cn, dn), links[j], cns, wlanToNode)
    {
      if j < n {
        assert LastOfItsName(links, j, n, cns) && links[j].name != name;
      }
      EnterDescribes(info, links[n], end, cns, wlanToNode, links[j]);
    }
  }

  lemma EnterDescribes(info: CnInfo, link: TopologyLink, end: CnEnd, cns: set<string>, wlanToNode: map<string, string>,
                       other: TopologyLink)
    requires cns <= wlanToNode.Keys && EndOf(link, cns) == Some(end) && end.dnWlan in wlanToNode
    requires other == link || (other.name != link.name && Describes(info, other, cns, wlanToNode))
    ensures Describes(Enter(info, link.name, end.cnName, wlanToNode[end.cnWlan], wlanToNode[end.dnWlan]),
                      other, cns, wlanToNode)
  {
  }

  lemma LinkSkipped(info: CnInfo, links: seq<TopologyLink>, n: nat, cns: set<string>, wlanToNode: map<string, string>)
    requires n < |links| && cns <= wlanToNode.Keys && EndOf(links[n], cns).None?
    requires BuiltFrom(info, links, n, cns, wlanToNode)
    ensures BuiltFrom(info, links, n + 1, cns, wlanToNode)
  {
    assert links[..n + 1][..n] == links[..n];
    forall j | 0 <= j < n + 1 && LastOfItsName(links, j, n + 1, cns)
      ensures Describes(info, links[j], cns, wlanToNode)
    {
      assert j < n ==> LastOfItsName(links, j, n, cns);
    }
  }

  method ReadLinks(links: seq<TopologyLink>, cns: set<string>, wlanToNode: map<string, string>)
    returns (info: Option<CnInfo>)
    requires cns <= wlanToNode.Keys
    ensures info.None? <==> exists l :: l in links && LacksRadio(l, cns, wlanToNode)
    ensures info.Some? ==> BuiltFrom(info.value, links, |links|, cns, wlanToNode)
  {
    var built := CnInfo({}, map[], map[], map[], map[], map[]);
    for i := 0 to |links|
      invariant BuiltFrom(built, links, i, cns, wlanToNode)
      invariant forall j :: 0 <= j < i && EndOf(links[j], cns).Some? ==> EndOf(links[j], cns).value.dnWlan in wlanToNode
    {
      match EndOf(links[i], cns)
      case None =>
        LinkSkipped(built, links, i, cns, wlanToNode);
      case Some(end) =>
        if end.dnWlan !in wlanToNode {
          assert links[i] in links;
          return None;
        }
        LinkEntered(built, links, i, cns, wlanToNode, end);
        built := Enter(built, links[i].name, end.cnName, wlanToNode[end.cnWlan], wlanToNode[end.dnWlan]);
    }
    info := Some(built);
  }

  // The tables list exactly the names of the wireless links with a CN end
  lemma {:induction false} LinkNamesAre(links: seq<TopologyLink>, cns: set<string>, name: string)
    ensures name in CnLinkNames(links, cns)
            <==> exists l :: l in links && l.name == name && l.wireless && (l.aMac in cns || l.zMac in cns)
  {
    if links != [] {
      var front, last := links[..|links| - 1], links[|links| - 1];
      assert links == front + [last];
      LinkNamesAre(front, cns, name);
    }
  }

  // and hold for each of them the name and the address of its CN end (its first end, if both are CNs)
  // and the address of the other end
  lemma TablesHoldEnds(info: CnInfo, links: seq<TopologyLink>, cns: set<string>, wlanToNode: map<string, string>,
                       j: nat)
    requires cns <= wlanToNode.Keys && BuiltFrom(info, links, |links|, cns, wlanToNode)
    requires j < |links| && LastOfItsName(links, j, |links|, cns) && links[j].wireless
    ensures var l := links[j];
            && (l.aMac in cns ==>
                  && l.zMac in wlanToNode && l.name in info.cnName && info.cnName[l.name] == l.aName
                  && Connects(info, l.name, wlanToNode[l.aMac], wlanToNode[l.zMac]))
            && (l.aMac !in cns && l.zMac in cns ==>
                  && l.aMac in wlanToNode && l.name in info.cnName && info.cnName[l.name] == l.zName
                  && Connects(info, l.name, wlanToNode[l.zMac], wlanToNode[l.aMac]))
  {
    assert Describes(info, links[j], cns, wlanToNode);
  }

  // The owner of a radio is the last node that lists it
  lemma {:induction false} LastOwnerIs(nodes: seq<TopologyNode>, wlan: string) returns (i: nat)
    requires LastOwner(nodes, wlan).Some?
    ensures i < |nodes| && wlan in nodes[i].wlanMacs && LastOwner(nodes, wlan) == Some(nodes[i].macAddr)
    ensures forall j :: i < j < |nodes| ==> wlan !in nodes[j].wlanMacs
  {
    i := |nodes| - 1;
    if wlan !in nodes[i].wlanMacs {
      i := LastOwnerIs(nodes[..i], wlan);
    }
  }

  // The node listed last with this radio
  function LastOwner(nodes: seq<TopologyNode>, wlan: string): Option<string> {
    if nodes == [] then None
    else if wlan in nodes[|nodes| - 1].wlanMacs then Some(nodes[|nodes| - 1].macAddr)
    else LastOwner(nodes[..|nodes| - 1], wlan)
  }

  ghost predicate OwnedBy(wlanToNode: map<string, string>, nodes: seq<TopologyNode>) {
    forall w :: LastOwner(nodes, w) == if w in wlanToNode then Some(wlanToNode[w]) else None
  }

  method ReadNodes(nodes: seq<TopologyNode>) returns (cns: set<string>, wlanToNode: map<string, string>)
    ensures cns == set n, w | n in nodes && n.isCn && w in n.wlanMacs :: w
    ensures OwnedBy(wlanToNode, nodes) && cns <= wlanToNode.Keys
  {
    cns, wlanToNode := {}, map[];
    for i := 0 to |nodes|
      invariant cns == set n, w | n in nodes[..i] && n.isCn && w in n.wlanMacs :: w
      invariant OwnedBy(wlanToNode, nodes[..i]) && cns <= wlanToNode.Keys
    {
      assert nodes[..i + 1] == nodes[..i] + [nodes[i]];
      assert nodes[..i + 1][..i] == nodes[..i];
      var more;
      more, wlanToNode := ReadRadios(nodes[i], wlanToNode);
      cns := cns + more;
    }
    assert nodes[..|nodes|] == nodes;
  }

  // The radios of one node
  method ReadRadios(node: TopologyNode, before: map<string, string>)
    returns (cns: set<string>, wlanToNode: map<string, string>)
    ensures cns == if node.isCn then set w | w in node.wlanMacs else {}
    ensures wlanToNode.Keys == before.Keys + set w | w in node.wlanMacs
    ensures forall w :: w in wlanToNode ==> wlanToNode[w] == if w in node.wlanMacs then node.macAddr else before[w]
  {
    cns, wlanToNode := {}, before;
    for k := 0 to |node.wlanMacs|
      invariant cns == if node.isCn then set w | w in node.wlanMacs[..k] else {}
      invariant wlanToNode.Keys == before.Keys + set w | w in node.wlanMacs[..k]
      invariant forall w :: w in wlanToNode ==>
                  wlanToNode[w] == if w in node.wlanMacs[..k] then node.macAddr else before[w]
    {
      assert node.wlanMacs[..k + 1] == node.wlanMacs[..k] + [node.wlanMacs[k]];
      wlanToNode := wlanToNode[node.wlanMacs[k] := node.macAddr];
      if node.isCn {
        cns := cns + {node.wlanMacs[k]};
      }
    }
    assert node.wlanMacs[..|node.wlanMacs|] == node.wlanMacs;
  }

  // ---------- what the status of a link should be ----------

  datatype Answers = Answers(uptime: seq<Row>, tsf: seq<Row>, attempts: seq<Row>)

  // Rows with an empty link name belong to links between distribution nodes
  predicate SaysAlive(r: Row, l: string) {
    l != "" && r.key == Some(l) && r.value.Some? && r.value.value > 0
  }

  predicate Alive(uptime: seq<Row>, l: string) {
    exists r :: r in uptime && SaysAlive(r, l)
  }

  lemma AliveOneMore(uptime: seq<Row>, i: nat)
    requires i < |uptime|
    ensures forall l :: Alive(uptime[..i + 1], l) <==> Alive(uptime[..i], l) || SaysAlive(uptime[i], l)
  {
    assert uptime[..i + 1] == uptime[..i] + [uptime[i]];
  }

  function LeftAfterUptime(info: CnInfo, uptime: seq<Row>): set<string> {
    set l | l in info.linkNames && !Alive(uptime, l)
  }

  function DnMacs(info: CnInfo, left: set<string>): set<string> {
    set l | l in left && l in info.dnMac :: info.dnMac[l]
  }

  predicate SaysReachable(r: Row, dn: string) {
    r.key == Some(dn) && r.value.Some? && r.value.value > MIN_TSF_COUNT
  }

  function Reachable(tsf: seq<Row>): set<string> {
    set r | r in tsf && r.key.Some? && SaysReachable(r, r.key.value) :: r.key.value
  }

  function Unreachable(info: CnInfo, answers: Answers): set<string> {
    DnMacs(info, LeftAfterUptime(info, answers.uptime)) - Reachable(answers.tsf)
  }

  // The link that the tables give for a CN listed under a DN
  predicate ListedUnder(info: CnInfo, dn: string, c: string, l: string) {
    dn in info.dnToCns && c in info.dnToCns[dn] && c in info.cnToLink && info.cnToLink[c] == l
  }

  ghost predicate FlaggedBy(info: CnInfo, dns: set<string>, l: string) {
    exists dn, c :: dn in dns && ListedUnder(info, dn, c, l)
  }

  ghost function LeftAfterTsf(info: CnInfo, answers: Answers): set<string> {
    set l | l in LeftAfterUptime(info, answers.uptime) && !FlaggedBy(info, Unreachable(info, answers), l)
  }

  function FirstValue(rows: seq<Row>, l: string): Option<int> {
    if rows == [] then None
    else if rows[0].key == Some(l) && rows[0].value.Some? then rows[0].value
    else FirstValue(rows[1..], l)
  }

  ghost function Classify(info: CnInfo, answers: Answers, l: string): Status {
    if Alive(answers.uptime, l) then LinkAlive
    else if FlaggedBy(info, Unreachable(info, answers), l) then InitUnreachable
    else
      match FirstValue(answers.attempts, l)
      case None => Unknown
      case Some(rate) => if rate == 0 then NoAssocReqs else CnPoweredOff
  }

  // A state carries the tables' data of its link; one written by the second pass carries the CN under
  // which the link was found
  ghost predicate RightState(info: CnInfo, answers: Answers, s: NodeState) {
    && s.linkName in info.cnName && s.nodeName == info.cnName[s.linkName]
    && s.state == Classify(info, answers, s.linkName)
    && if s.state == InitUnreachable
       then exists dn :: dn in Unreachable(info, answers) && ListedUnder(info, dn, s.nodeMac, s.linkName)
       else s.linkName in info.cnMac && s.nodeMac == info.cnMac[s.linkName]
  }

  // As long as link names are unique these are the same
  lemma RightStateMac(info: CnInfo, answers: Answers, s: NodeState)
    requires Consistent(info) && RightState(info, answers, s)
    ensures s.linkName in info.cnMac && s.nodeMac == info.cnMac[s.linkName]
  {
  }

  function LinksOf(states: seq<NodeState>): seq<string> {
    seq(|states|, k requires 0 <= k < |states| => states[k].linkName)
  }

  // Exactly one state for each of the links, and it is the right one
  ghost predicate Written(info: CnInfo, answers: Answers, states: seq<NodeState>, links: set<string>) {
    && InfoOk(info) && links <= info.linkNames
    && (forall i, j :: 0 <= i < j < |states| ==> states[i].linkName != states[j].linkName)
    && (forall l :: l in links <==> l in LinksOf(states))
    && (forall k :: 0 <= k < |states| ==> RightState(info, answers, states[k]))
  }

  lemma WriteOne(info: CnInfo, answers: Answers, states: seq<NodeState>, links: set<string>, s: NodeState)
    requires Written(info, answers, states, links) && RightState(info, answers, s)
    requires s.linkName in info.linkNames && s.linkName !in links
    ensures Written(info, answers, states + [s], links + {s.linkName})
  {
    assert LinksOf(states + [s]) == LinksOf(states) + [s.linkName];
    forall k | 0 <= k < |states|
      ensures states[k].linkName != s.linkName
    {
      assert LinksOf(states)[k] == states[k].linkName;
    }
  }

  // ---------- when a run raises ----------

  predicate UptimeRowRaises(r: Row) {
    r.key.None? || (r.key.value != "" && r.value.None?)
  }

  predicate TsfRowRaises(r: Row) {
    r.value.None? || (r.value.value > MIN_TSF_COUNT && r.key.None?)
  }

  predicate AttemptsRowRaises(r: Row) {
    r.key.None? || r.key.value == "" || r.value.None?
  }

  // An empty link name is passed over by the first pass and refused by the third
  lemma WhichRowsRaise(key: Option<string>, l: string, n: int)
    requires l != ""
    ensures UptimeRowRaises(Row(None, Some(n))) && UptimeRowRaises(Row(Some(l), None))
    ensures !UptimeRowRaises(Row(Some(""), None)) && !UptimeRowRaises(Row(Some(l), Some(n)))
    ensures TsfRowRaises(Row(key, None)) && !TsfRowRaises(Row(Some(l), Some(n)))
    ensures TsfRowRaises(Row(None, Some(n))) <==> n >= 6
    ensures AttemptsRowRaises(Row(None, Some(n))) && AttemptsRowRaises(Row(Some(""), Some(n)))
    ensures AttemptsRowRaises(Row(Some(l), None)) && !AttemptsRowRaises(Row(Some(l), Some(n)))
  {
  }

  // The second and the third query are only made while links are left
  ghost predicate Raises(info: CnInfo, answers: Answers) {
    || (exists r :: r in answers.uptime && UptimeRowRaises(r))
    || (LeftAfterUptime(info, answers.uptime) != {} && exists r :: r in answers.tsf && TsfRowRaises(r))
    || (LeftAfterTsf(info, answers) != {} && exists r :: r in answers.attempts && AttemptsRowRaises(r))
  }

  // ---------- the four passes ----------

  class PowerStatusCheck {
    const info: CnInfo
    var linkNameSet: set<string>
    var nodeStates: seq<NodeState>

    constructor (cnInfo: CnInfo)
      requires InfoOk(cnInfo)
      ensures info == cnInfo && linkNameSet == cnInfo.linkNames && nodeStates == []
    {
      info, linkNameSet, nodeStates := cnInfo, cnInfo.linkNames, [];
    }

    ghost predicate Sound(answers: Answers)
      reads this
    {
      linkNameSet <= info.linkNames && Written(info, answers, nodeStates, info.linkNames - linkNameSet)
    }

    // Every pass goes through here
    method Record(ghost answers: Answers, l: string, mac: string, state: Status)
      requires Sound(answers) && l in linkNameSet && RightState(info, answers, NodeState(info.cnName[l], mac, l, state))
      modifies this
      ensures Sound(answers) && linkNameSet == old(linkNameSet) - {l}
    {
      WriteOne(info, answers, nodeStates, info.linkNames - linkNameSet, NodeState(info.cnName[l], mac, l, state));
      assert info.linkNames - (linkNameSet - {l}) == info.linkNames - linkNameSet + {l};
      nodeStates := nodeStates + [NodeState(info.cnName[l], mac, l, state)];
      linkNameSet := linkNameSet - {l};
    }

    // False stands for an exception, here and below
    method CheckFwUptime(answers: Answers) returns (ok: bool)
      requires Sound(answers) && linkNameSet == info.linkNames
      modifies this
      ensures Sound(answers)
      ensures ok <==> forall r :: r in answers.uptime ==> !UptimeRowRaises(r)
      ensures ok ==> linkNameSet == LeftAfterUptime(info, answers.uptime)
    {
      var rows := answers.uptime;
      for i := 0 to |rows|
        invariant Sound(answers)
        invariant forall j :: 0 <= j < i ==> !UptimeRowRaises(rows[j])
        invariant forall l :: l in info.linkNames ==> (l in linkNameSet <==> !Alive(rows[..i], l))
      {
        AliveOneMore(rows, i);
        assert rows[i] in rows;
        if rows[i].key.None? {
          return false;
        }
        var l := rows[i].key.value;
        if l == "" {
          continue;
        }
        if rows[i].value.None? {
          return false;
        }
        if rows[i].value.value > 0 && l in linkNameSet {
          assert SaysAlive(rows[i], l);
          Record(answers, l, info.cnMac[l], LinkAlive);
        }
      }
      assert rows[..|rows|] == rows;
      ok := true;
    }

    method CheckMiscsysTsf(answers: Answers) returns (ok: bool)
      requires Sound(answers) && linkNameSet == LeftAfterUptime(info, answers.uptime)
      modifies this
      ensures Sound(answers)
      ensures ok <==> old(linkNameSet) == {} || forall r :: r in answers.tsf ==> !TsfRowRaises(r)
      ensures ok ==> linkNameSet == LeftAfterTsf(info, answers)
    {
      var dns := DnMacs(info, linkNameSet);
      SomeDn(info, linkNameSet);
      if dns == {} {
        assert LeftAfterTsf(info, answers) == {};
        return true;
      }
      var reachable := ReadReachable(answers.tsf);
      if reachable.None? {
        return false;
      }
      FlagUnreachable(answers, dns - reachable.value);
      ok := true;
    }

    method FlagUnreachable(ghost answers: Answers, unreachable: set<string>)
      requires Sound(answers) && linkNameSet == LeftAfterUptime(info, answers.uptime)
      requires unreachable == Unreachable(info, answers)
      modifies this
      ensures Sound(answers) && linkNameSet == LeftAfterTsf(info, answers)
    {
      ghost var left := linkNameSet;
      var todo := unreachable;
      while todo != {}
        invariant todo <= unreachable && Sound(answers)
        invariant forall l :: l in linkNameSet <==> l in left && !FlaggedBy(info, unreachable - todo, l)
        decreases |todo|
      {
        var dn :| dn in todo;
        CheckNeighbours(answers, dn);
        todo := todo - {dn};
        forall l ensures FlaggedBy(info, unreachable - todo, l)
                         <==> FlaggedBy(info, unreachable - todo - {dn}, l) || FlaggedBy(info, {dn}, l) {
          FlaggedSplit(info, unreachable - todo, dn, l);
        }
        assert unreachable - todo - {dn} == unreachable - (todo + {dn});
      }
    }

    // All CNs of one unreachable DN
    method CheckNeighbours(ghost answers: Answers, dn: string)
      requires Sound(answers) && linkNameSet <= LeftAfterUptime(info, answers.uptime)
      requires dn in Unreachable(info, answers)
      modifies this
      ensures Sound(answers)
      ensures forall l :: l in linkNameSet <==> l in old(linkNameSet) && !FlaggedBy(info, {dn}, l)
    {
      DnIsListed(info, LeftAfterUptime(info, answers.uptime), dn);
      ghost var before := linkNameSet;
      var todo := info.dnToCns[dn];
      while todo != {}
        invariant todo <= info.dnToCns[dn] && Sound(answers) && linkNameSet <= before
        invariant forall l :: l in linkNameSet <==>
                    l in before && !exists c :: c in info.dnToCns[dn] - todo && ListedUnder(info, dn, c, l)
        decreases |todo|
      {
        var c :| c in todo;
        var l := info.cnToLink[c];
        assert ListedUnder(info, dn, c, l);
        if l in linkNameSet {
          assert FlaggedBy(info, Unreachable(info, answers), l);
          Record(answers, l, c, InitUnreachable);
        }
        todo := todo - {c};
      }
    }

    method CheckLinkAttempts(answers: Answers) returns (ok: bool)
      requires Sound(answers) && linkNameSet == LeftAfterTsf(info, answers)
      modifies this
      ensures Sound(answers) && linkNameSet <= old(linkNameSet)
      ensures ok <==> old(linkNameSet) == {} || forall r :: r in answers.attempts ==> !AttemptsRowRaises(r)
      ensures ok ==> forall l :: l in linkNameSet <==> l in old(linkNameSet) && FirstValue(answers.attempts, l).None?
    {
      ok := true;
      if linkNameSet == {} {
        return;
      }
      var rows := answers.attempts;
      ghost var before := linkNameSet;
      for i := 0 to |rows|
        invariant Sound(answers) && linkNameSet <= before
        invariant forall j :: 0 <= j < i ==> !AttemptsRowRaises(rows[j])
        invariant forall l :: l in linkNameSet <==> l in before && FirstValue(rows[..i], l).None?
      {
        assert rows[i] in rows;
        if rows[i].key.None? || rows[i].key.value == "" || rows[i].value.None? {
          return false;
        }
        var l, rate := rows[i].key.value, rows[i].value.value;
        FirstValuesOneMore(rows, i);
        if l in info.cnName && l in linkNameSet {
          FirstValuePrefix(rows, i + 1, l);
          Record(answers, l, info.cnMac[l], if rate == 0 then NoAssocReqs else CnPoweredOff);
        }
      }
      assert rows[..|rows|] == rows;
    }

    method CheckUnknown(ghost answers: Answers)
      requires Sound(answers) && forall l :: l in linkNameSet ==> Classify(info, answers, l) == Unknown
      modifies this
      ensures Written(info, answers, nodeStates, info.linkNames)
    {
      var todo := linkNameSet;
      while todo != {}
        invariant todo <= info.linkNames
        invariant forall l :: l in todo ==> Classify(info, answers, l) == Unknown
        invariant Written(info, answers, nodeStates, info.linkNames - todo)
        decreases |todo|
      {
        var l :| l in todo;
        var state := NodeState(info.cnName[l], info.cnMac[l], l, Unknown);
        WriteOne(info, answers, nodeStates, info.linkNames - todo, state);
        assert info.linkNames - (todo - {l}) == info.linkNames - todo + {l};
        nodeStates := nodeStates + [state];
        todo := todo - {l};
      }
      assert info.linkNames - {} == info.linkNames;
    }

    method CheckAllCriteria(answers: Answers) returns (ok: bool)
      requires InfoOk(info) && linkNameSet == info.linkNames && nodeStates == []
      modifies this
      ensures ok <==> !Raises(info, answers)
      ensures ok ==> Written(info, answers, nodeStates, info.linkNames)
    {
      assert info.linkNames - linkNameSet == {};
      ok := CheckFwUptime(answers);
      if ok {
        ok := CheckMiscsysTsf(answers);
      }
      if ok {
        ok := CheckLinkAttempts(answers);
      }
      if ok {
        CheckUnknown(answers);
      }
    }
  }

  method ReadReachable(tsf: seq<Row>) returns (reachable: Option<set<string>>)
    ensures reachable.Some? <==> forall r :: r in tsf ==> !TsfRowRaises(r)
    ensures reachable.Some? ==> reachable.value == Reachable(tsf)
  {
    var macs := {};
    for i := 0 to |tsf|
      invariant forall j :: 0 <= j < i ==> !TsfRowRaises(tsf[j])
      invariant macs == Reachable(tsf[..i])
    {
      assert tsf[i] in tsf && tsf[..i + 1] == tsf[..i] + [tsf[i]];
      if tsf[i].value.None? {
        return None;
      }
      if tsf[i].value.value > MIN_TSF_COUNT {
        if tsf[i].key.None? {
          return None;
        }
        macs := macs + {tsf[i].key.value};
      }
    }
    assert tsf[..|tsf|] == tsf;
    reachable := Some(macs);
  }

  lemma SomeDn(info: CnInfo, left: set<string>)
    requires InfoOk(info) && left <= info.linkNames
    ensures DnMacs(info, left) == {} <==> left == {}
  {
    if left != {} {
      var l :| l in left;
      assert info.dnMac[l] in DnMacs(info, left);
    }
  }

  // Rates are fractions, and int() refuses the string of a fraction: one link left, and one attempt
  // every thirty seconds
  lemma FractionalRateRaises(info: CnInfo)
    requires InfoOk(info) && info.linkNames == {"link"} && info.dnMac["link"] == "dn"
    ensures Raises(info, Answers([], [Row(Some("dn"), Some(10))], [Row(Some("link"), None)]))
  {
    var answers := Answers([], [Row(Some("dn"), Some(10))], [Row(Some("link"), None)]);
    assert answers.tsf[0] in answers.tsf && "dn" in Reachable(answers.tsf);
    assert "link" in LeftAfterTsf(info, answers);
    assert answers.attempts[0] in answers.attempts;
  }

  lemma FlaggedSplit(info: CnInfo, dns: set<string>, dn: string, l: string)
    requires dn in dns
    ensures FlaggedBy(info, dns, l) <==> FlaggedBy(info, dns - {dn}, l) || FlaggedBy(info, {dn}, l)
  {
    if d, c :| d in dns && ListedUnder(info, d, c, l) {
      assert d in dns - {dn} || d in {dn};
    }
  }

  lemma DnIsListed(info: CnInfo, left: set<string>, dn: string)
    requires InfoOk(info) && dn in DnMacs(info, left)
    ensures dn in info.dnToCns
  {
    var l :| l in left && l in info.dnMac && info.dnMac[l] == dn;
    assert l in info.linkNames;
  }

  lemma {:induction false} FirstValueOneMore(rows: seq<Row>, row: Row, l: string)
    ensures FirstValue(rows + [row], l)
            == if FirstValue(rows, l).Some? then FirstValue(rows, l) else if row.key == Some(l) then row.value else None
  {
    if rows == [] {
      assert rows + [row] == [row] && [row][1..] == [];
    } else {
      assert (rows + [row])[1..] == rows[1..] + [row];
      FirstValueOneMore(rows[1..], row, l);
    }
  }

  lemma FirstValuesOneMore(rows: seq<Row>, i: nat)
    requires i < |rows|
    ensures forall l :: FirstValue(rows[..i + 1], l)
                        == if FirstValue(rows[..i], l).Some? then FirstValue(rows[..i], l)
                           else if rows[i].key == Some(l) then rows[i].value else None
  {
    assert rows[..i + 1] == rows[..i] + [rows[i]];
    forall l {
      FirstValueOneMore(rows[..i], rows[i], l);
    }
  }

  lemma {:induction false} FirstValuePrefix(rows: seq<Row>, n: nat, l: string)
    requires n <= |rows| && FirstValue(rows[..n], l).Some?
    ensures FirstValue(rows, l) == FirstValue(rows[..n], l)
    decreases |rows| - n
  {
    if n == |rows| {
      assert rows[..n] == rows;
    } else {
      FirstValuesOneMore(rows, n);
      FirstValuePrefix(rows, n + 1, l);
    }
  }

  // ---------- unreachable initiators ----------

  predicate OneLinkPerCn(info: CnInfo) {
    forall l :: l in info.cnMac && info.cnMac[l] in info.cnToLink ==> info.cnToLink[info.cnMac[l]] == l
  }

  // The second pass finds exactly the links whose own DN is unreachable, for every set of reachable
  // DNs, if and only if no CN has two links
  lemma FlagsExactIff(info: CnInfo)
    requires Consistent(info)
    ensures (forall reachable, l :: l in info.linkNames ==>
               (FlaggedBy(info, DnMacs(info, info.linkNames) - reachable, l) <==> info.dnMac[l] !in reachable))
            <==> OneLinkPerCn(info)
  {
    if OneLinkPerCn(info) {
      forall reachable: set<string>, l | l in info.linkNames
        ensures FlaggedBy(info, DnMacs(info, info.linkNames) - reachable, l) <==> info.dnMac[l] !in reachable
      {
        FlagExact(info, info.linkNames, reachable, l);
      }
    } else {
      var l :| l in info.cnMac && info.cnMac[l] in info.cnToLink && info.cnToLink[info.cnMac[l]] != l;
      assert l in info.linkNames;
      SecondLinkMissed(info, l);
      var none: set<string> := {};
      assert !FlaggedBy(info, DnMacs(info, info.linkNames) - none, l) && info.dnMac[l] !in none;
    }
  }

  lemma FlagExact(info: CnInfo, left: set<string>, reachable: set<string>, l: string)
    requires Consistent(info) && OneLinkPerCn(info) && left <= info.linkNames && l in left
    ensures FlaggedBy(info, DnMacs(info, left) - reachable, l) <==> info.dnMac[l] !in reachable
  {
    assert info.dnMac[l] in DnMacs(info, left) && ListedUnder(info, info.dnMac[l], info.cnMac[l], l);
    if dn, c :| dn in DnMacs(info, left) - reachable && ListedUnder(info, dn, c, l) {
      var k :| Connects(info, k, c, dn);
      assert info.cnToLink[info.cnMac[k]] == k;
    }
  }

  lemma SecondLinkMissed(info: CnInfo, l: string)
    requires Consistent(info) && l in info.linkNames && info.cnToLink[info.cnMac[l]] != l
    ensures forall dns :: !FlaggedBy(info, dns, l)
  {
    forall dns: set<string>, dn, c ensures !(dn in dns && ListedUnder(info, dn, c, l)) {
    }
  }

  // ---------- the states in plain words ----------

  // Whether an answer has a row with this label and a value of at least n
  predicate Reaches(rows: seq<Row>, key: string, n: int) {
    exists r :: r in rows && r.key == Some(key) && r.value.Some? && r.value.value >= n
  }

  predicate IsFirst(rows: seq<Row>, key: string, i: nat) {
    && i < |rows| && rows[i].key == Some(key) && rows[i].value.Some?
    && forall j :: 0 <= j < i ==> !(rows[j].key == Some(key) && rows[j].value.Some?)
  }

  lemma {:induction false} FirstValueIs(rows: seq<Row>, key: string)
    ensures FirstValue(rows, key) == None <==> forall i :: 0 <= i < |rows| ==> !IsFirst(rows, key, i)
    ensures forall i :: 0 <= i < |rows| && IsFirst(rows, key, i) ==> FirstValue(rows, key) == rows[i].value
  {
    if rows != [] {
      var rest := rows[1..];
      FirstValueIs(rest, key);
      if rows[0].key == Some(key) && rows[0].value.Some? {
        assert IsFirst(rows, key, 0);
      } else {
        forall i | 0 < i < |rows| ensures IsFirst(rows, key, i) <==> IsFirst(rest, key, i - 1) {
          RestFirst(rows, key, i);
        }
        forall i | 0 <= i < |rest| ensures IsFirst(rest, key, i) <==> IsFirst(rows, key, i + 1) {
        }
      }
    }
  }

  lemma RestFirst(rows: seq<Row>, key: string, i: nat)
    requires 0 < i < |rows| && !(rows[0].key == Some(key) && rows[0].value.Some?)
    ensures IsFirst(rows, key, i) <==> IsFirst(rows[1..], key, i - 1)
  {
    if IsFirst(rows[1..], key, i - 1) {
      forall j | 0 <= j < i ensures !(rows[j].key == Some(key) && rows[j].value.Some?) {
        assert j > 0 ==> rows[1..][j - 1] == rows[j];
      }
    }
    if IsFirst(rows, key, i) {
      forall j | 0 <= j < i - 1 ensures !(rows[1..][j].key == Some(key) && rows[1..][j].value.Some?) {
        assert rows[1..][j] == rows[j + 1];
      }
    }
  }

  // Alive: some uptime above zero.  Unreachable: not alive, and no more than five time stamps of its
  // DN.  Otherwise the first attempt rate decides: none at all, a zero, or more.
  lemma StatusMeans(info: CnInfo, answers: Answers, l: string)
    requires Consistent(info) && OneLinkPerCn(info) && l in info.linkNames
    ensures var alive, reachable := l != "" && Reaches(answers.uptime, l, 1), Reaches(answers.tsf, info.dnMac[l], 6);
            var state := Classify(info, answers, l);
            && (state == LinkAlive <==> alive)
            && (state == InitUnreachable <==> !alive && !reachable)
            && (state == NoAssocReqs <==> !alive && reachable && FirstValue(answers.attempts, l) == Some(0))
            && (state == Unknown <==> !alive && reachable && FirstValue(answers.attempts, l) == None)
  {
    assert Alive(answers.uptime, l) <==> l != "" && Reaches(answers.uptime, l, 1) by {
      if r :| r in answers.uptime && r.key == Some(l) && r.value.Some? && r.value.value >= 1 && l != "" {
        assert SaysAlive(r, l);
      }
    }
    var dn := info.dnMac[l];
    assert dn in Reachable(answers.tsf) <==> Reaches(answers.tsf, dn, 6) by {
      if r :| r in answers.tsf && r.key == Some(dn) && r.value.Some? && r.value.value >= 6 {
        assert SaysReachable(r, dn);
      }
    }
    if !Alive(answers.uptime, l) {
      FlagExact(info, LeftAfterUptime(info, answers.uptime), Reachable(answers.tsf), l);
    }
  }
}
