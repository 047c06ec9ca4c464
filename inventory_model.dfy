/** Values and specification functions of the dynamic inventory builder.

    The cloud provider is replaced by its answers: a sequence of regions, each with
    the instances it lists, in the order the provider returns them. The functions
    here say what the document holds after a run; the imperative builder in module
    DynamicInventory is proved against them.
 */
module InventoryModel {

  datatype Option<+T> = None | Some(value: T)

  /** One entry of an instance's tag list: the provider's {"Key": ..., "Value": ...}. */
  datatype Tag = Tag(key: string, value: string)

  /** What the builder reads of an instance: its id, its public address (absent when
      none is assigned) and its tag list (absent when the instance has no tags). */
  datatype Instance = Instance(id: string, publicIp: Option<string>, tags: Option<seq<Tag>>)

  /** A region name together with the instances the provider lists in it. */
  datatype Region = Region(name: string, instances: seq<Instance>)

  /** A per-host variable record, a dictionary from variable name to value. */
  type HostVars = map<string, string>

  const RegionFilter: string := "us-"
  const NameKey: string := "Name"

  const AnsibleHost: string := "ansible_host"
  const KeyFileVar: string := "ansible_ssh_private_key_file"
  const UserVar: string := "ansible_ssh_user"
  const KeyFile: string := "~/.ssh/id_rsa"
  const SshUser: string := "ubuntu"

  /** Python's `sub in s` on strings: `sub` occurs somewhere in `s`. */
  function Contains(s: string, sub: string): bool
    decreases |s|
  {
    if |s| < |sub| then false
    else s[..|sub|] == sub || Contains(s[1..], sub)
  }

  /** Python's `str(...)` applied to a possibly absent address. */
  function Address(ip: Option<string>): string
  {
    match ip
    case Some(a) => a
    case None => "None"
  }

  /** The host record written for an address. */
  function HostVarsFor(address: string): HostVars
  {
    map[AnsibleHost := address, KeyFileVar := KeyFile, UserVar := SshUser]
  }

  /** The static connection variables of the otherHosts group. */
  function OtherVars(): map<string, string>
  {
    map[UserVar := SshUser, KeyFileVar := KeyFile]
  }

  /** The shape every host record has: exactly three variables, two of them fixed. */
  predicate IsHostRecord(m: HostVars)
  {
    m.Keys == {AnsibleHost, KeyFileVar, UserVar} && m[KeyFileVar] == KeyFile && m[UserVar] == SshUser
  }

  /** The tags the scan walks: none when the instance has no tag list. */
  function TagList(tags: Option<seq<Tag>>): seq<Tag>
  {
    match tags
    case Some(ts) => ts
    case None => []
  }

  /** The value of the last tag keyed "Name", or "" when there is none. */
  function LastNameTag(ts: seq<Tag>): string
  {
    if ts == [] then ""
    else if ts[|ts| - 1].key == NameKey then ts[|ts| - 1].value
    else LastNameTag(ts[..|ts| - 1])
  }

  /** The regions whose instances are listed, in the order given. */
  function QueriedRegions(rs: seq<Region>): seq<Region>
  {
    if rs == [] then []
    else
      var last := rs[|rs| - 1];
      QueriedRegions(rs[..|rs| - 1]) + (if Contains(last.name, RegionFilter) then [last] else [])
  }

  /** The instances of the given regions, region after region. */
  function Flatten(rs: seq<Region>): seq<Instance>
  {
    if rs == [] then [] else Flatten(rs[..|rs| - 1]) + rs[|rs| - 1].instances
  }

  /** The instances a run visits, in the order it visits them. */
  function Enumerated(rs: seq<Region>): seq<Instance>
  {
    Flatten(QueriedRegions(rs))
  }

  /** The ids of the given instances, in order. */
  function HostIds(s: seq<Instance>): seq<string>
  {
    if s == [] then [] else HostIds(s[..|s| - 1]) + [s[|s| - 1].id]
  }

  /** `hv` after a host record has been written for every instance of `s`, in order. */
  function Recorded(hv: map<string, HostVars>, s: seq<Instance>): map<string, HostVars>
  {
    if s == [] then hv
    else
      var last := s[|s| - 1];
      Recorded(hv, s[..|s| - 1])[last.id := HostVarsFor(Address(last.publicIp))]
  }

  /** Two region lists that differ at most in the instances' tags. */
  predicate SameButTags(rs1: seq<Region>, rs2: seq<Region>)
  {
    |rs1| == |rs2| &&
    forall k :: 0 <= k < |rs1| ==>
      rs1[k].name == rs2[k].name && SameInstancesButTags(rs1[k].instances, rs2[k].instances)
  }

  predicate SameInstancesButTags(s1: seq<Instance>, s2: seq<Instance>)
  {
    |s1| == |s2| &&
    forall k :: 0 <= k < |s1| ==> s1[k].id == s2[k].id && s1[k].publicIp == s2[k].publicIp
  }

  // ---------------------------------------------------------------------------
  // The region filter

  /** `sub` occurs in `s` starting at index `i`. */
  predicate OccursAt(s: string, sub: string, i: int)
  {
    0 <= i <= |s| - |sub| && s[i..i + |sub|] == sub
  }

  /** `Contains` is substring occurrence at any position, not only as a prefix. */
  lemma {:induction false} ContainsIff(s: string, sub: string)
    ensures Contains(s, sub) <==> exists i :: OccursAt(s, sub, i)
    decreases |s|
  {
    if |s| < |sub| {
    } else if s[..|sub|] == sub {
      assert OccursAt(s, sub, 0);
    } else {
      ContainsIff(s[1..], sub);
      if Contains(s[1..], sub) {
        var i :| OccursAt(s[1..], sub, i);
        assert s[i + 1..i + 1 + |sub|] == s[1..][i..i + |sub|];
        assert OccursAt(s, sub, i + 1);
      }
      if i :| OccursAt(s, sub, i) {
        assert i != 0;
        assert s[1..][i - 1..i - 1 + |sub|] == s[i..i + |sub|];
        assert OccursAt(s[1..], sub, i - 1);
      }
    }
  }

  /** A region is queried exactly when it is given and its name contains "us-". */
  lemma {:induction false} QueriedRegionsIff(rs: seq<Region>, r: Region)
    ensures r in QueriedRegions(rs) <==> r in rs && Contains(r.name, RegionFilter)
  {
    if rs != [] {
      QueriedRegionsIff(rs[..|rs| - 1], r);
      assert rs == rs[..|rs| - 1] + [rs[|rs| - 1]];
    }
  }

  /** The filter keeps the given order: it distributes over concatenation. */
  lemma {:induction false} QueriedRegionsAppend(a: seq<Region>, b: seq<Region>)
    ensures QueriedRegions(a + b) == QueriedRegions(a) + QueriedRegions(b)
    decreases |b|
  {
    if b == [] {
      assert a + b == a;
    } else {
      var b' := b[..|b| - 1];
      assert (a + b)[..|a + b| - 1] == a + b';
      QueriedRegionsAppend(a, b');
    }
  }

  lemma {:induction false} FlattenAppend(a: seq<Region>, b: seq<Region>)
    ensures Flatten(a + b) == Flatten(a) + Flatten(b)
    decreases |b|
  {
    if b == [] {
      assert a + b == a;
    } else {
      var b' := b[..|b| - 1];
      assert (a + b)[..|a + b| - 1] == a + b';
      FlattenAppend(a, b');
    }
  }

  /** The regions are visited in the given order: the instances visited for `a + b` are
      those visited for `a` followed by those visited for `b`. */
  lemma EnumeratedAppend(a: seq<Region>, b: seq<Region>)
    ensures Enumerated(a + b) == Enumerated(a) + Enumerated(b)
  {
    QueriedRegionsAppend(a, b);
    FlattenAppend(QueriedRegions(a), QueriedRegions(b));
  }

  /** One more region: its instances are visited after the earlier regions' ones,
      and only when its name contains "us-". */
  lemma EnumeratedSnoc(rs: seq<Region>)
    requires rs != []
    ensures Enumerated(rs) ==
            Enumerated(rs[..|rs| - 1]) +
            (if Contains(rs[|rs| - 1].name, RegionFilter) then rs[|rs| - 1].instances else [])
  {
    var init, last := rs[..|rs| - 1], rs[|rs| - 1];
    if Contains(last.name, RegionFilter) {
      var q := QueriedRegions(init) + [last];
      assert QueriedRegions(rs) == q;
      assert q[..|q| - 1] == QueriedRegions(init);
      assert Flatten(q) == Flatten(QueriedRegions(init)) + last.instances;
    } else {
      assert QueriedRegions(rs) == QueriedRegions(init);
    }
  }

  /** The instances visited for the first `i + 1` regions: those for the first `i`,
      then region `i`'s own when its name contains "us-". */
  lemma EnumeratedPrefix(rs: seq<Region>, i: int)
    requires 0 <= i < |rs|
    ensures Enumerated(rs[..i + 1]) ==
            Enumerated(rs[..i]) + (if Contains(rs[i].name, RegionFilter) then rs[i].instances else [])
  {
    assert rs[..i + 1][..i] == rs[..i] && rs[..i + 1][i] == rs[i];
    EnumeratedSnoc(rs[..i + 1]);
  }

  /** When no region name contains "us-", no instance is visited. */
  lemma {:induction false} NoQueriedRegion(rs: seq<Region>)
    requires forall k :: 0 <= k < |rs| ==> !Contains(rs[k].name, RegionFilter)
    ensures Enumerated(rs) == []
  {
    if rs != [] {
      var init := rs[..|rs| - 1];
      assert forall k :: 0 <= k < |init| ==> init[k] == rs[k];
      NoQueriedRegion(init);
      EnumeratedSnoc(rs);
    }
  }

  lemma {:induction false} FlattenIff(rs: seq<Region>, x: Instance)
    ensures x in Flatten(rs) <==> exists r :: r in rs && x in r.instances
  {
    if rs != [] {
      var init := rs[..|rs| - 1];
      FlattenIff(init, x);
      assert rs == init + [rs[|rs| - 1]];
    }
  }

  /** An instance is visited exactly when a queried region lists it. */
  lemma EnumeratedIff(rs: seq<Region>, x: Instance)
    ensures x in Enumerated(rs) <==>
            exists r :: r in rs && Contains(r.name, RegionFilter) && x in r.instances
  {
    FlattenIff(QueriedRegions(rs), x);
    forall r ensures r in QueriedRegions(rs) <==> r in rs && Contains(r.name, RegionFilter) {
      QueriedRegionsIff(rs, r);
    }
  }

  // ---------------------------------------------------------------------------
  // The Name-tag scan

  /** `j` is the position of the last tag keyed "Name". */
  predicate IsLastNameAt(ts: seq<Tag>, j: int)
  {
    0 <= j < |ts| && ts[j].key == NameKey && forall k :: j < k < |ts| ==> ts[k].key != NameKey
  }

  /** Without a tag keyed "Name" the scan yields "". */
  lemma {:induction false} LastNameTagAbsent(ts: seq<Tag>)
    requires forall k :: 0 <= k < |ts| ==> ts[k].key != NameKey
    ensures LastNameTag(ts) == ""
  {
    if ts != [] {
      var init := ts[..|ts| - 1];
      assert forall k :: 0 <= k < |init| ==> init[k] == ts[k];
      LastNameTagAbsent(init);
    }
  }

  /** With a tag keyed "Name" the scan yields the value of the last such tag. */
  lemma {:induction false} LastNameTagIsLast(ts: seq<Tag>, j: int)
    requires IsLastNameAt(ts, j)
    ensures LastNameTag(ts) == ts[j].value
  {
    var n, init := |ts| - 1, ts[..|ts| - 1];
    if j < n {
      assert ts[n].key != NameKey;
      assert IsLastNameAt(init, j) by {
        assert forall k :: j < k < n ==> init[k] == ts[k];
      }
      LastNameTagIsLast(init, j);
    }
  }

  // ---------------------------------------------------------------------------
  // Host records and the host list

  lemma {:induction false} HostIdsShape(s: seq<Instance>)
    ensures |HostIds(s)| == |s|
    ensures forall k :: 0 <= k < |s| ==> HostIds(s)[k] == s[k].id
  {
    if s != [] {
      HostIdsShape(s[..|s| - 1]);
    }
  }

  /** One more instance: its id goes last. */
  lemma HostIdsSnoc(s: seq<Instance>, x: Instance)
    ensures HostIds(s + [x]) == HostIds(s) + [x.id]
  {
  }

  /** One more instance: its record is written last. */
  lemma RecordedSnoc(hv: map<string, HostVars>, s: seq<Instance>, x: Instance)
    ensures Recorded(hv, s + [x]) == Recorded(hv, s)[x.id := HostVarsFor(Address(x.publicIp))]
  {
  }

  /** One instance's worth of progress: from the host list and records after the
      first `j` instances, recording instance `j` gives those after `j + 1`. */
  lemma InstanceStep(ws: seq<string>, hv: map<string, HostVars>, s: seq<Instance>, j: int)
    requires 0 <= j < |s|
    ensures (ws + HostIds(s[..j])) + [s[j].id] == ws + HostIds(s[..j + 1])
    ensures Recorded(hv, s[..j])[s[j].id := HostVarsFor(Address(s[j].publicIp))] == Recorded(hv, s[..j + 1])
  {
    assert s[..j + 1] == s[..j] + [s[j]];
    HostIdsSnoc(s[..j], s[j]);
    RecordedSnoc(hv, s[..j], s[j]);
    ghost var ids := HostIds(s[..j]);
    assert ws + (ids + [s[j].id]) == (ws + ids) + [s[j].id];
  }

  /** The ids of `a + b` are those of `a` followed by those of `b`. */
  lemma {:induction false} HostIdsAppend(a: seq<Instance>, b: seq<Instance>)
    ensures HostIds(a + b) == HostIds(a) + HostIds(b)
    decreases |b|
  {
    if b == [] {
      assert a + b == a;
    } else {
      var b', x := b[..|b| - 1], b[|b| - 1];
      assert b == b' + [x];
      assert a + b == (a + b') + [x];
      HostIdsAppend(a, b');
      HostIdsSnoc(a + b', x);
      HostIdsSnoc(b', x);
      ghost var p, q := HostIds(a), HostIds(b');
      assert (p + q) + [x.id] == p + (q + [x.id]);
    }
  }

  /** Recording `a + b` is recording `a`, then `b`. */
  lemma {:induction false} RecordedAppend(hv: map<string, HostVars>, a: seq<Instance>, b: seq<Instance>)
    ensures Recorded(hv, a + b) == Recorded(Recorded(hv, a), b)
    decreases |b|
  {
    if b == [] {
      assert a + b == a;
    } else {
      var b', x := b[..|b| - 1], b[|b| - 1];
      assert b == b' + [x];
      assert a + b == (a + b') + [x];
      RecordedAppend(hv, a, b');
      RecordedSnoc(hv, a + b', x);
      RecordedSnoc(Recorded(hv, a), b', x);
    }
  }

  /** One region's worth of progress: from the host list and records after the
      first `i` regions, recording region `i`'s instances (when its name contains
      "us-") gives the host list and records after the first `i + 1` regions. */
  lemma RegionStep(ws: seq<string>, hv: map<string, HostVars>, rs: seq<Region>, i: int)
    requires 0 <= i < |rs|
    ensures Contains(rs[i].name, RegionFilter) ==>
              (ws + HostIds(Enumerated(rs[..i]))) + HostIds(rs[i].instances) == ws + HostIds(Enumerated(rs[..i + 1])) &&
              Recorded(Recorded(hv, Enumerated(rs[..i])), rs[i].instances) == Recorded(hv, Enumerated(rs[..i + 1]))
    ensures !Contains(rs[i].name, RegionFilter) ==> Enumerated(rs[..i + 1]) == Enumerated(rs[..i])
  {
    var before := Enumerated(rs[..i]);
    EnumeratedPrefix(rs, i);
    if Contains(rs[i].name, RegionFilter) {
      RecordedAppend(hv, before, rs[i].instances);
      HostIdsAppend(before, rs[i].instances);
      ghost var a, b := HostIds(before), HostIds(rs[i].instances);
      assert ws + (a + b) == (ws + a) + b;
    } else {
      assert before + [] == before;
    }
  }

  /** The record keys are the previous keys plus exactly the ids recorded. */
  lemma {:induction false} RecordedKeys(hv: map<string, HostVars>, s: seq<Instance>)
    ensures Recorded(hv, s).Keys == hv.Keys + (set id | id in HostIds(s))
  {
    if s != [] {
      RecordedKeys(hv, s[..|s| - 1]);
    }
  }

  /** Every record written is a host record of the fixed shape. */
  lemma {:induction false} RecordedShape(hv: map<string, HostVars>, s: seq<Instance>)
    requires forall id :: id in hv ==> IsHostRecord(hv[id])
    ensures forall id :: id in Recorded(hv, s) ==> IsHostRecord(Recorded(hv, s)[id])
  {
    if s != [] {
      RecordedShape(hv, s[..|s| - 1]);
    }
  }

  /** `j` is the position of the last instance with id `id`. */
  predicate IsLastIdAt(s: seq<Instance>, id: string, j: int)
  {
    0 <= j < |s| && s[j].id == id && forall k :: j < k < |s| ==> s[k].id != id
  }

  /** A recorded id holds the address of the LAST instance with that id: a later
      record replaces an earlier one rather than merging with it. */
  lemma {:induction false} RecordedLastWins(hv: map<string, HostVars>, s: seq<Instance>, id: string, j: int)
    requires IsLastIdAt(s, id, j)
    ensures id in Recorded(hv, s)
    ensures Recorded(hv, s)[id] == HostVarsFor(Address(s[j].publicIp))
  {
    var n, init := |s| - 1, s[..|s| - 1];
    if j < n {
      assert s[n].id != id;
      assert IsLastIdAt(init, id, j) by {
        assert forall k :: j < k < n ==> init[k] == s[k];
      }
      RecordedLastWins(hv, init, id, j);
    }
  }

  /** A key no instance carries keeps its previous record, or stays absent. */
  lemma {:induction false} RecordedUntouched(hv: map<string, HostVars>, s: seq<Instance>, id: string)
    requires forall k :: 0 <= k < |s| ==> s[k].id != id
    ensures id in Recorded(hv, s) <==> id in hv
    ensures id in hv ==> Recorded(hv, s)[id] == hv[id]
  {
    if s != [] {
      var init := s[..|s| - 1];
      assert forall k :: 0 <= k < |init| ==> init[k] == s[k];
      RecordedUntouched(hv, init, id);
    }
  }

  /** The host records do not depend on the tags. */
  lemma {:induction false} RecordedIgnoresTags(hv: map<string, HostVars>, s1: seq<Instance>, s2: seq<Instance>)
    requires SameInstancesButTags(s1, s2)
    ensures HostIds(s1) == HostIds(s2)
    ensures Recorded(hv, s1) == Recorded(hv, s2)
  {
    if s1 != [] {
      var n := |s1| - 1;
      var i1, i2 := s1[..n], s2[..n];
      assert SameInstancesButTags(i1, i2) by {
        assert forall k :: 0 <= k < n ==> i1[k] == s1[k] && i2[k] == s2[k];
      }
      RecordedIgnoresTags(hv, i1, i2);
      assert s1[n].id == s2[n].id && s1[n].publicIp == s2[n].publicIp;
    }
  }

  lemma {:induction false} EnumeratedIgnoresTagsStep(rs1: seq<Region>, rs2: seq<Region>)
    requires SameButTags(rs1, rs2)
    ensures SameInstancesButTags(Enumerated(rs1), Enumerated(rs2))
  {
    if rs1 != [] {
      var n := |rs1| - 1;
      assert SameButTags(rs1[..n], rs2[..n]) by {
        assert forall k :: 0 <= k < n ==> rs1[..n][k] == rs1[k] && rs2[..n][k] == rs2[k];
      }
      EnumeratedIgnoresTagsStep(rs1[..n], rs2[..n]);
      EnumeratedSnoc(rs1);
      EnumeratedSnoc(rs2);
      assert rs1[n].name == rs2[n].name && SameInstancesButTags(rs1[n].instances, rs2[n].instances);
      if Contains(rs1[n].name, RegionFilter) {
        SameInstancesAppend(Enumerated(rs1[..n]), rs1[n].instances, Enumerated(rs2[..n]), rs2[n].instances);
      }
    }
  }

  lemma SameInstancesAppend(a1: seq<Instance>, b1: seq<Instance>, a2: seq<Instance>, b2: seq<Instance>)
    requires SameInstancesButTags(a1, a2) && SameInstancesButTags(b1, b2)
    ensures SameInstancesButTags(a1 + b1, a2 + b2)
  {
  }

  /** The document a run builds does not depend on any instance's tags: the Name-tag
      scan is dead code. */
  lemma OutputIgnoresTags(hv: map<string, HostVars>, rs1: seq<Region>, rs2: seq<Region>)
    requires SameButTags(rs1, rs2)
    ensures HostIds(Enumerated(rs1)) == HostIds(Enumerated(rs2))
    ensures Recorded(hv, Enumerated(rs1)) == Recorded(hv, Enumerated(rs2))
  {
    EnumeratedIgnoresTagsStep(rs1, rs2);
    RecordedIgnoresTags(hv, Enumerated(rs1), Enumerated(rs2));
  }

  // ---------------------------------------------------------------------------
  // Worked cases

  /** The characters "u", "s", "-" start at index `i` of `s`. */
  predicate UsDashAt(s: string, i: int)
  {
    0 <= i < |s| - 2 && s[i] == 'u' && s[i + 1] == 's' && s[i + 2] == '-'
  }

  /** A name in which no "u" is followed by "s" and then "-" does not contain "us-". */
  lemma {:induction false} NoUsDash(s: string)
    requires forall i :: !UsDashAt(s, i)
    ensures !Contains(s, RegionFilter)
  {
    if |s| >= 3 {
      assert !UsDashAt(s, 0);
      forall i ensures !UsDashAt(s[1..], i) {
        if UsDashAt(s[1..], i) {
          assert UsDashAt(s, i + 1);
        }
      }
      NoUsDash(s[1..]);
    }
  }

  /** Neither "eu-west-1" nor "usa-1" contains "us-": in the first the "u" is
      followed by "-", in the second "us" is followed by "a". */
  lemma NotQueriedNames()
    ensures !Contains("eu-west-1", RegionFilter) && !Contains("usa-1", RegionFilter)
  {
    NoUsDash("eu-west-1");
    NoUsDash("usa-1");
  }

  /** A region between two queried ones that is not queried itself drops out, and
      the other two keep their order. */
  lemma QueriedRegionsOfThree(a: Region, b: Region, c: Region)
    requires Contains(a.name, RegionFilter) && !Contains(b.name, RegionFilter) && Contains(c.name, RegionFilter)
    ensures QueriedRegions([a, b, c]) == [a, c]
  {
    assert QueriedRegions([a]) == [a] by { assert [a][..0] == []; }
    assert [a, b][..1] == [a];
    assert [a, b, c][..2] == [a, b];
  }

  /** "us-" occurring past the start of a name. */
  lemma InfixMatch()
    ensures Contains("eu-us-1", RegionFilter)
  {
  }

  /** Of "us-east-1", "eu-west-1" and "us-west-2" only the first and the last are
      queried, in that order. */
  lemma RegionFilterCases()
    ensures QueriedRegions([Region("us-east-1", []), Region("eu-west-1", []), Region("us-west-2", [])]) ==
            [Region("us-east-1", []), Region("us-west-2", [])]
  {
    assert "us-east-1"[..3] == RegionFilter && "us-west-2"[..3] == RegionFilter;
    NotQueriedNames();
    QueriedRegionsOfThree(Region("us-east-1", []), Region("eu-west-1", []), Region("us-west-2", []));
  }

  /** An instance without a public address is still recorded, under the address
      "None"; one with an address is recorded under that address. */
  lemma MissingAddressCase()
    ensures var s := [Instance("i-1", Some("1.2.3.4"), None), Instance("i-2", None, None)];
            HostIds(s) == ["i-1", "i-2"] &&
            Recorded(map[], s)["i-1"][AnsibleHost] == "1.2.3.4" &&
            Recorded(map[], s)["i-2"][AnsibleHost] == "None"
  {
  }
}
