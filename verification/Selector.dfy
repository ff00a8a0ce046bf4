/** The master label seen twice: the configuration controller parses it into an equality
    selector for listing nodes, the renderer splits it at the first '=' into a node affinity. */
module Selector {
  import opened Text
  import opened Addresses
  import opened MergePatch

  /** `unicode.IsSpace`. */
  predicate IsSpace(c: char) {
    || '\U{0009}' <= c <= '\U{000D}' || '\U{2000}' <= c <= '\U{200A}'
    || c in {' ', '\U{0085}', '\U{00A0}', '\U{1680}', '\U{2028}', '\U{2029}', '\U{202F}', '\U{205F}', '\U{3000}'}
  }

  /** `strings.TrimSpace`. */
  function Trim(s: string): string
    decreases |s|
  {
    if s == "" then ""
    else if IsSpace(s[0]) then Trim(s[1..])
    else if IsSpace(s[|s| - 1]) then Trim(s[..|s| - 1])
    else s
  }

  // ----- equality selector -----

  function ParsePairs(pieces: seq<string>): Option<map<string, string>> {
    if pieces == [] then Some(map[])
    else
      var pair := Split(pieces[0], '=');
      if |pair| != 2 then None
      else
        var rest := ParsePairs(pieces[1..]);
        if rest.None? then None else Some(map[Trim(pair[0]) := Trim(pair[1])] + rest.value)
  }

  /** The empty selector selects every node; otherwise every comma-separated piece must hold
      exactly one '='. */
  function ParseSelector(masterLabel: string): Option<map<string, string>> {
    if masterLabel == "" then Some(map[]) else ParsePairs(Split(masterLabel, ','))
  }

  predicate Selects(selector: map<string, string>, labels: map<string, string>) {
    forall k <- selector :: k in labels && labels[k] == selector[k]
  }

  function PieceKey(piece: string): string {
    Trim(Split(piece, '=')[0])
  }

  function PieceValue(piece: string): string {
    if |Split(piece, '=')| == 2 then Trim(Split(piece, '=')[1]) else ""
  }

  /** The labels map this piece's trimmed key to its trimmed value. */
  predicate Agrees(labels: map<string, string>, piece: string) {
    PieceKey(piece) in labels && labels[PieceKey(piece)] == PieceValue(piece)
  }

  /** Piece `i` is the last one with its key, so its value counts. */
  predicate Counts(pieces: seq<string>, i: nat)
    requires i < |pieces|
  {
    forall j :: i < j < |pieces| ==> PieceKey(pieces[j]) != PieceKey(pieces[i])
  }

  predicate AgreesWithAll(labels: map<string, string>, pieces: seq<string>) {
    forall i: nat :: i < |pieces| && Counts(pieces, i) ==> Agrees(labels, pieces[i])
  }

  /** A list of pieces is accepted if every piece has exactly one '='. */
  lemma {:induction false} PairsAccepted(pieces: seq<string>)
    ensures ParsePairs(pieces).Some? <==> forall p <- pieces :: |Split(p, '=')| == 2
  {
    hide Split, Trim;
    if pieces != [] {
      PairsAccepted(pieces[1..]);
      if |Split(pieces[0], '=')| == 2 {
        forall p | p in pieces && p !in pieces[1..] ensures |Split(p, '=')| == 2 {
          assert p == pieces[0];
        }
      } else {
        assert pieces[0] in pieces;
      }
    }
  }

  lemma {:induction false} PairKeys(pieces: seq<string>, k: string)
    requires ParsePairs(pieces).Some?
    ensures k in ParsePairs(pieces).value <==> exists i :: 0 <= i < |pieces| && PieceKey(pieces[i]) == k
  {
    hide Split, Trim;
    if pieces != [] {
      PairKeys(pieces[1..], k);
      assert forall i :: 0 <= i < |pieces| - 1 ==> pieces[i + 1] == pieces[1..][i];
      if k in ParsePairs(pieces[1..]).value {
        var i :| 0 <= i < |pieces| - 1 && PieceKey(pieces[1..][i]) == k;
        assert PieceKey(pieces[i + 1]) == k;
      }
      assert forall i :: 0 < i < |pieces| ==> pieces[i] == pieces[1..][i - 1];
    }
  }

  /** What a list of pieces selects, with no reference to the map it is parsed into. */
  lemma {:induction false} ParsePairsMeaning(pieces: seq<string>, labels: map<string, string>)
    requires ParsePairs(pieces).Some?
    ensures Selects(ParsePairs(pieces).value, labels) <==> AgreesWithAll(labels, pieces)
  {
    if pieces != [] {
      hide Split, Trim, Selects, AgreesWithAll;
      ParsePairsMeaning(pieces[1..], labels);
      FirstAgrees(labels, pieces);
      FirstCounts(pieces);
      SelectsWith(PieceKey(pieces[0]), PieceValue(pieces[0]), ParsePairs(pieces[1..]).value, labels);
    }
  }

  lemma FirstCounts(pieces: seq<string>)
    requires pieces != [] && ParsePairs(pieces).Some?
    ensures Counts(pieces, 0) <==> PieceKey(pieces[0]) !in ParsePairs(pieces[1..]).value
  {
    hide Split, Trim, PieceKey;
    var rest := pieces[1..];
    PairKeys(rest, PieceKey(pieces[0]));
    assert forall i :: 0 <= i < |rest| ==> rest[i] == pieces[i + 1];
    assert forall j :: 0 < j < |pieces| ==> pieces[j] == rest[j - 1];
  }

  lemma FirstAgrees(labels: map<string, string>, pieces: seq<string>)
    requires pieces != []
    ensures AgreesWithAll(labels, pieces) <==>
              (Counts(pieces, 0) ==> Agrees(labels, pieces[0])) && AgreesWithAll(labels, pieces[1..])
  {
    hide Agrees, PieceKey;
    var rest := pieces[1..];
    forall i: nat | i < |rest| ensures Counts(pieces, i + 1) <==> Counts(rest, i) {
      assert forall j :: i < j < |rest| ==> rest[j] == pieces[j + 1];
      assert forall j :: i + 1 < j < |pieces| ==> pieces[j] == rest[j - 1];
    }
    assert forall i: nat :: i < |rest| ==> rest[i] == pieces[i + 1];
    assert forall i: nat :: 0 < i < |pieces| ==>
             pieces[i] == rest[i - 1] && (Counts(pieces, i) <==> Counts(rest, i - 1));
  }

  lemma SelectsWith(key: string, value: string, rest: map<string, string>, labels: map<string, string>)
    ensures Selects(map[key := value] + rest, labels) <==>
              (key !in rest ==> key in labels && labels[key] == value) && Selects(rest, labels)
  {
    var whole := map[key := value] + rest;
    if Selects(whole, labels) {
      assert key in whole;
      assert forall k <- rest :: k in whole && whole[k] == rest[k];
    }
  }

  /** For every label: it is accepted if and only if it is empty or every comma-separated piece holds
      exactly one '='; and a node is selected if and only if its labels map the trimmed key of every
      piece to the trimmed value, where a repeated key counts with its last value. */
  lemma SelectorMeaning(masterLabel: string, labels: map<string, string>)
    ensures var pieces := Split(masterLabel, ',');
            && (ParseSelector(masterLabel).Some? <==>
                masterLabel == "" || forall p <- pieces :: |Split(p, '=')| == 2)
            && (ParseSelector(masterLabel).Some? ==>
                (Selects(ParseSelector(masterLabel).value, labels) <==>
                 masterLabel == "" || AgreesWithAll(labels, pieces)))
  {
    hide Split, ParsePairs, AgreesWithAll;
    PairsAccepted(Split(masterLabel, ','));
    if masterLabel != "" && ParseSelector(masterLabel).Some? {
      ParsePairsMeaning(Split(masterLabel, ','), labels);
    }
  }

  predicate Blank(s: string) {
    forall c <- s :: IsSpace(c)
  }

  /** Trimming takes white space off both ends, all of it, and nothing else. */
  lemma TrimMeaning(s: string) returns (left: string, right: string)
    ensures s == left + Trim(s) + right && Blank(left) && Blank(right)
    ensures Trim(s) != "" ==> !IsSpace(Trim(s)[0]) && !IsSpace(Trim(s)[|Trim(s)| - 1])
  {
    hide Trim, IsSpace;
    left, right := TrimTakes(s);
    TrimLeavesNone(s);
  }

  lemma {:induction false} TrimTakes(s: string) returns (left: string, right: string)
    ensures s == left + Trim(s) + right && Blank(left) && Blank(right)
    decreases |s|
  {
    hide IsSpace;
    left, right := "", "";
    if s != "" && IsSpace(s[0]) {
      left, right := TrimTakes(s[1..]);
      assert s == [s[0]] + (left + Trim(s[1..]) + right);
      left := [s[0]] + left;
    } else if s != "" && IsSpace(s[|s| - 1]) {
      left, right := TrimTakes(s[..|s| - 1]);
      assert s == left + Trim(s[..|s| - 1]) + right + [s[|s| - 1]];
      right := right + [s[|s| - 1]];
    }
  }

  lemma {:induction false} TrimLeavesNone(s: string)
    ensures Trim(s) != "" ==> !IsSpace(Trim(s)[0]) && !IsSpace(Trim(s)[|Trim(s)| - 1])
    decreases |s|
  {
    hide IsSpace;
    if s != "" && IsSpace(s[0]) {
      TrimLeavesNone(s[1..]);
    } else if s != "" && IsSpace(s[|s| - 1]) {
      TrimLeavesNone(s[..|s| - 1]);
    }
  }

  // ----- node affinity -----

  /** `Unreadable` stands for a document that does not decode: the pass fails and nothing runs. */
  datatype Affinity = NoAffinity | KeyExists(key: string) | KeyIn(key: string, value: string) | Unreadable

  function FirstPart(masterLabel: string): string {
    Split(masterLabel, '=')[0]
  }

  function AfterFirstEquals(masterLabel: string): string {
    Join(Split(masterLabel, '=')[1..], '=')
  }

  /** What the YAML decoder makes of an unquoted scalar: the string it reads, if it reads one. */
  type PlainScalar = string -> Option<string>

  /** The key is written unquoted, so `yaml` decides what it means; the value is quoted. */
  function MasterNodeAffinity(masterLabel: string, yaml: PlainScalar): Affinity {
    if masterLabel == "" then NoAffinity
    else
      var key := yaml(FirstPart(masterLabel));
      if key.None? then Unreadable
      else if AfterFirstEquals(masterLabel) != "" then KeyIn(key.value, AfterFirstEquals(masterLabel))
      else KeyExists(key.value)
  }

  predicate Admits(a: Affinity, labels: map<string, string>) {
    match a
    case NoAffinity => true
    case Unreadable => false
    case KeyExists(key) => key in labels
    case KeyIn(key, value) => key in labels && labels[key] == value
  }

  // ----- splitting -----

  /** The key holds no '=', and key, '=' and value spell the label. */
  lemma FirstEqualsSplit(masterLabel: string)
    ensures '=' !in FirstPart(masterLabel)
    ensures '=' in masterLabel ==> masterLabel == FirstPart(masterLabel) + "=" + AfterFirstEquals(masterLabel)
    ensures '=' !in masterLabel ==> FirstPart(masterLabel) == masterLabel && AfterFirstEquals(masterLabel) == ""
  {
    var parts := Split(masterLabel, '=');
    SplitPiecesFree(masterLabel, '=');
    JoinSplitRoundTrip(masterLabel, '=');
    assert parts[0] in parts;
    if |parts| == 1 {
      assert masterLabel == parts[0];
    } else if '=' !in masterLabel {
      SplitFree(masterLabel, '=');
    }
  }

  lemma {:induction false} SplitKeepsOut(s: string, c: char, d: char)
    requires d !in s
    ensures AllFree(Split(s, c), d)
  {
    if s != "" {
      SplitKeepsOut(s[1..], c, d);
      var rest := Split(s[1..], c);
      assert rest[0] in rest;
      forall x | x in Split(s, c) ensures d !in x {
        if s[0] != c && x !in rest[1..] {
          assert x == [s[0]] + rest[0];
        }
      }
    }
  }

  lemma {:induction false} FirstPieceOfPrefix(p: string, s: string, c: char)
    requires c in p
    ensures Split(p + s, c)[0] == Split(p, c)[0]
  {
    assert (p + s)[1..] == p[1..] + s;
    if p[0] != c {
      FirstPieceOfPrefix(p[1..], s, c);
    }
  }

  lemma {:induction false} TrimKeepsOut(s: string, d: char)
    requires d !in s
    ensures d !in Trim(s)
    decreases |s|
  {
    if s != "" && IsSpace(s[0]) {
      TrimKeepsOut(s[1..], d);
    } else if s != "" && IsSpace(s[|s| - 1]) {
      TrimKeepsOut(s[..|s| - 1], d);
    }
  }

  /** No parsed value contains a comma. */
  lemma {:induction false} ParsedValuesFree(pieces: seq<string>)
    requires AllFree(pieces, ',') && ParsePairs(pieces).Some?
    ensures forall k <- ParsePairs(pieces).value :: ',' !in ParsePairs(pieces).value[k]
  {
    if pieces != [] {
      var pair := Split(pieces[0], '=');
      SplitKeepsOut(pieces[0], '=', ',');
      TrimKeepsOut(pair[1], ',');
      ParsedValuesFree(pieces[1..]);
    }
  }

  /** In a label with several pairs the comma falls into the affinity's value. */
  lemma CommaIsInValue(masterLabel: string)
    requires ',' in masterLabel && ParseSelector(masterLabel).Some?
    ensures ',' in AfterFirstEquals(masterLabel)
  {
    var pieces := Split(masterLabel, ',');
    JoinSplitRoundTrip(masterLabel, ',');
    SplitPiecesFree(masterLabel, ',');
    assert pieces[0] in pieces;
    if |pieces| > 1 {
      var p, rest := pieces[0], [','] + Join(pieces[1..], ',');
      assert masterLabel == p + rest;
      SplitPiecesFree(p, '=');
      if '=' !in p { SplitFree(p, '='); }
      FirstPieceOfPrefix(p, rest, '=');
      SplitKeepsOut(p, '=', ',');
      FirstEqualsSplit(masterLabel);
      assert ',' !in FirstPart(masterLabel) + "=";
    }
  }

  /** A label with one pair. */
  lemma SinglePair(masterLabel: string)
    requires masterLabel != "" && ',' !in masterLabel && ParseSelector(masterLabel).Some?
    ensures ParseSelector(masterLabel).value == map[Trim(FirstPart(masterLabel)) := Trim(AfterFirstEquals(masterLabel))]
  {
    SplitFree(masterLabel, ',');
    var pair := Split(masterLabel, '=');
    assert pair[1..] == [pair[1]];
    assert ParsePairs([]) == Some(map[]);
    assert [masterLabel][1..] == [];
  }

  ghost predicate Agree(masterLabel: string, yaml: PlainScalar)
    requires ParseSelector(masterLabel).Some?
  {
    forall labels: map<string, string> ::
      Admits(MasterNodeAffinity(masterLabel, yaml), labels) <==> Selects(ParseSelector(masterLabel).value, labels)
  }

  /** What the rendered affinity admits: with no label every node; otherwise the nodes that carry the
      key before the first '=', as YAML reads it, with exactly what follows as its value, or with any
      value if nothing follows. */
  lemma AffinityMeaning(key: string, value: string, yaml: PlainScalar, labels: map<string, string>)
    requires '=' !in key
    ensures Admits(MasterNodeAffinity("", yaml), labels)
    ensures var carried := yaml(key).Some? && yaml(key).value in labels;
            && (Admits(MasterNodeAffinity(key + "=" + value, yaml), labels) <==>
                carried && (value == "" || labels[yaml(key).value] == value))
            && (key != "" ==> (Admits(MasterNodeAffinity(key, yaml), labels) <==> carried))
  {
    hide Split;
    SplitHead(key, value, '=');
    assert key + ['='] + value == key + "=" + value;
    JoinSplitRoundTrip(value, '=');
    SplitFree(key, '=');
    assert AfterFirstEquals(key + "=" + value) == value;
  }

  /** A label whose affinity the scheduler reads as the controller reads the selector: empty, or
      one pair with a non-empty, unpadded value and a key that YAML reads as that same key. */
  predicate SimpleLabel(masterLabel: string, yaml: PlainScalar) {
    || masterLabel == ""
    || (&& ',' !in masterLabel
        && AfterFirstEquals(masterLabel) != "" && Trim(AfterFirstEquals(masterLabel)) == AfterFirstEquals(masterLabel)
        && yaml(FirstPart(masterLabel)) == Some(Trim(FirstPart(masterLabel))))
  }

  /** Among the labels the controller accepts, and for every YAML decoder, the affinity admits
      exactly the selected nodes if and only if the label is simple. */
  lemma SelectorAgreement(masterLabel: string, yaml: PlainScalar)
    requires ParseSelector(masterLabel).Some?
    ensures Agree(masterLabel, yaml) <==> SimpleLabel(masterLabel, yaml)
  {
    if masterLabel != "" {
      var key, value := Trim(FirstPart(masterLabel)), AfterFirstEquals(masterLabel);
      var selector, affinity := ParseSelector(masterLabel).value, MasterNodeAffinity(masterLabel, yaml);
      assert Selects(selector, selector);
      if affinity.Unreadable? {
        assert !Admits(affinity, selector);
      } else if ',' in masterLabel {
        CommaIsInValue(masterLabel);
        SplitPiecesFree(masterLabel, ',');
        ParsedValuesFree(Split(masterLabel, ','));
        assert !Admits(affinity, selector);
      } else {
        SinglePair(masterLabel);
        if affinity.key != key || (value != "" && Trim(value) != value) {
          assert !Admits(affinity, selector);
        } else if value == "" {
          var other := map[key := "x"];
          assert Trim(value) == "" && selector[key] == "";
          assert Admits(affinity, other) && !Selects(selector, other);
        }
      }
    }
  }

  /** A legal label on which they disagree: YAML 1.1 reads a plain `on` as a boolean, which
      decodes into the string "true". */
  lemma BooleanKeyDisagrees(yaml: PlainScalar)
    requires yaml("on") == Some("true")
    ensures ParseSelector("on=x") == Some(map["on" := "x"]) && !Agree("on=x", yaml)
  {
    var pair := "on=x";
    SplitHead("on", "x", '=');
    assert "on" + ['='] + "x" == pair;
    SplitFree("x", '=');
    assert Split(pair, '=') == ["on"] + ["x"];
    SinglePieceParses(pair, "on", "x");
    assert Trim("on") == "on" && Trim("x") == "x";
    assert FirstPart(pair) == "on" && "on"[0] != "true"[0];
    SelectorAgreement(pair, yaml);
  }

  lemma SinglePieceParses(masterLabel: string, key: string, value: string)
    requires masterLabel != "" && ',' !in masterLabel && Split(masterLabel, '=') == [key, value]
    ensures ParseSelector(masterLabel) == Some(map[Trim(key) := Trim(value)])
  {
    SplitFree(masterLabel, ',');
    hide Split, Trim;
    assert ParsePairs([]) == Some(map[]) && [masterLabel][1..] == [];
    assert map[Trim(key) := Trim(value)] + map[] == map[Trim(key) := Trim(value)];
  }

  // ----- nodes -----

  datatype NodeAddress = InternalIP(address: string) | OtherAddress(address: string)

  datatype Node = Node(
    labels: map<string, string>,
    addresses: seq<NodeAddress>,
    finalizer: bool,
    foreignFinalizer: bool,
    deleting: bool)

  /** The first internal address, or the empty string. */
  function NodeInternalIP(addresses: seq<NodeAddress>): string {
    if addresses == [] then ""
    else if addresses[0].InternalIP? then addresses[0].address
    else NodeInternalIP(addresses[1..])
  }

  /** It is the first internal entry that decides, whatever comes before or after it. */
  lemma {:induction false} FirstInternalAddress(addresses: seq<NodeAddress>, i: nat)
    requires i <= |addresses| && forall j :: 0 <= j < i ==> addresses[j].OtherAddress?
    requires i < |addresses| ==> addresses[i].InternalIP?
    ensures NodeInternalIP(addresses) == if i < |addresses| then addresses[i].address else ""
  {
    if i > 0 {
      FirstInternalAddress(addresses[1..], i - 1);
    }
  }

  /** The non-empty internal addresses of the nodes, in listing order. */
  function AddressesOf(nodes: seq<Node>): seq<string> {
    if nodes == [] then []
    else
      var ip := NodeInternalIP(nodes[0].addresses);
      (if ip != "" then [ip] else []) + AddressesOf(nodes[1..])
  }

  /** What the API server returns for an equality selector. */
  function Matching(nodes: seq<Node>, selector: map<string, string>): seq<Node> {
    if nodes == [] then []
    else (if Selects(selector, nodes[0].labels) then [nodes[0]] else []) + Matching(nodes[1..], selector)
  }

  /** How many nodes the affinity admits that also have an internal address. */
  function AdmittedWithAddress(nodes: seq<Node>, a: Affinity): nat {
    if nodes == [] then 0
    else
      (if Admits(a, nodes[0].labels) && NodeInternalIP(nodes[0].addresses) != "" then 1 else 0)
      + AdmittedWithAddress(nodes[1..], a)
  }

  lemma {:induction false} AddressesOfAppend(a: seq<Node>, b: seq<Node>)
    ensures AddressesOf(a + b) == AddressesOf(a) + AddressesOf(b)
  {
    if a == [] {
      assert a + b == b;
    } else {
      assert (a + b)[1..] == a[1..] + b;
      AddressesOfAppend(a[1..], b);
    }
  }

  /** For a simple label, the number of published addresses, which is the rendered replica
      count, is the number of schedulable nodes that have an internal address. */
  lemma {:induction false} ReplicasMatchAdmitted(nodes: seq<Node>, masterLabel: string, yaml: PlainScalar)
    requires ParseSelector(masterLabel).Some? && SimpleLabel(masterLabel, yaml)
    ensures |Sort(AddressesOf(Matching(nodes, ParseSelector(masterLabel).value)))| ==
            AdmittedWithAddress(nodes, MasterNodeAffinity(masterLabel, yaml))
  {
    hide Sort;
    SortMeaning(AddressesOf(Matching(nodes, ParseSelector(masterLabel).value)));
    if nodes != [] {
      SortMeaning(AddressesOf(Matching(nodes[1..], ParseSelector(masterLabel).value)));
      SelectorAgreement(masterLabel, yaml);
      var selector := ParseSelector(masterLabel).value;
      assert Admits(MasterNodeAffinity(masterLabel, yaml), nodes[0].labels) <==> Selects(selector, nodes[0].labels);
      AddressesOfAppend(if Selects(selector, nodes[0].labels) then [nodes[0]] else [], Matching(nodes[1..], selector));
      ReplicasMatchAdmitted(nodes[1..], masterLabel, yaml);
    }
  }

  // ----- rendered values -----

  datatype IncludeValues = IncludeValues(nodeCount: nat, nodeIPs: string, runAsUser: int)

  function GenerateIncludeValues(addresses: seq<string>, enableOVNIPSec: bool): IncludeValues {
    IncludeValues(|addresses|, Join(addresses, ','), if enableOVNIPSec then 0 else 65534)
  }

  /** NODE_IPS read back by splitting on commas is the stored list, with one address per
      replica, exactly when the list is non-empty and no address contains a comma. */
  lemma NodeIpsRoundTrip(addresses: seq<string>, enableOVNIPSec: bool)
    ensures var v := GenerateIncludeValues(addresses, enableOVNIPSec);
            && v.nodeCount == |addresses| && v.runAsUser == (if enableOVNIPSec then 0 else 65534)
            && (Split(v.nodeIPs, ',') == addresses <==> addresses != [] && AllFree(addresses, ','))
            && (Split(v.nodeIPs, ',') == addresses ==> |Split(v.nodeIPs, ',')| == v.nodeCount)
  {
    SplitJoinRoundTrip(addresses, ',');
  }
}
