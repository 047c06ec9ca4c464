/** The inventory builder: a document updated in place, host by host. */
module DynamicInventory {

  import opened InventoryModel

  /** The inventory document: `_meta.hostvars`, `webservers.hosts`, `otherHosts.hosts`
      and `otherHosts.vars` (absent until a run attaches it). */
  class InventoryDocument {
    var hostvars: map<string, HostVars>
    var webservers: seq<string>
    var otherHosts: seq<string>
    var otherVars: Option<map<string, string>>

    /** What holds of every document the builder can produce: the listed hosts are
        exactly the keys of hostvars, each record has the fixed shape, otherHosts has
        no host, and its vars, once attached, are the static block. */
    ghost predicate Valid()
      reads this
    {
      hostvars.Keys == (set h | h in webservers) &&
      (forall id :: id in hostvars ==> IsHostRecord(hostvars[id])) &&
      otherHosts == [] &&
      (otherVars.None? || otherVars == Some(OtherVars()))
    }

    /** The empty document the program starts from. */
    constructor ()
      ensures Valid()
      ensures hostvars == map[] && webservers == [] && otherHosts == [] && otherVars == None
    {
      hostvars := map[];
      webservers := [];
      otherHosts := [];
      otherVars := None;
    }

    /** Writes a fresh record for `hostID` (replacing any earlier one) and appends the
        id to the webservers hosts. */
    method GetHostDetails(hostID: string, hostIP: string)
      requires Valid()
      modifies this
      ensures Valid()
      // the new record, stated on its own for callers; it follows from the next clause
      ensures hostID in hostvars && hostvars[hostID] == HostVarsFor(hostIP)
      ensures hostvars == old(hostvars)[hostID := HostVarsFor(hostIP)]
      ensures webservers == old(webservers) + [hostID]
      ensures otherHosts == old(otherHosts) && otherVars == old(otherVars)
    {
      var record: HostVars := map[];
      record := record[AnsibleHost := hostIP];
      record := record[KeyFileVar := KeyFile];
      record := record[UserVar := SshUser];
      hostvars := hostvars[hostID := record];
      webservers := webservers + [hostID];
    }

    /** The loop over one region's instances: each is scanned for its Name tag and
        recorded, in the order listed. */
    method RecordInstances(instances: seq<Instance>)
      requires Valid()
      modifies this
      ensures Valid()
      ensures webservers == old(webservers) + HostIds(instances)
      ensures hostvars == Recorded(old(hostvars), instances)
      ensures otherHosts == old(otherHosts) && otherVars == old(otherVars)
    {
      var j := 0;
      while j < |instances|
        invariant 0 <= j <= |instances|
        invariant Valid()
        invariant webservers == old(webservers) + HostIds(instances[..j])
        invariant hostvars == Recorded(old(hostvars), instances[..j])
        invariant otherHosts == old(otherHosts) && otherVars == old(otherVars)
      {
        var instance := instances[j];
        var tagName := NameTag(instance.tags);
        InstanceStep(old(webservers), old(hostvars), instances, j);
        GetHostDetails(instance.id, Address(instance.publicIp));
        j := j + 1;
      }
      assert instances[..j] == instances;
    }

    /** Records every instance of every region whose name contains "us-", in the
        order given, then attaches the static otherHosts vars. */
    method ListEC2Hosts(regions: seq<Region>)
      requires Valid()
      modifies this
      ensures Valid()
      ensures webservers == old(webservers) + HostIds(Enumerated(regions))
      ensures hostvars == Recorded(old(hostvars), Enumerated(regions))
      ensures otherHosts == old(otherHosts)
      ensures otherVars == Some(OtherVars())
    {
      var i := 0;
      while i < |regions|
        invariant 0 <= i <= |regions|
        invariant Valid()
        invariant webservers == old(webservers) + HostIds(Enumerated(regions[..i]))
        invariant hostvars == Recorded(old(hostvars), Enumerated(regions[..i]))
        invariant otherHosts == old(otherHosts) && otherVars == old(otherVars)
      {
        var region := regions[i];
        RegionStep(old(webservers), old(hostvars), regions, i);
        if Contains(region.name, RegionFilter) {
          RecordInstances(region.instances);
        }
        i := i + 1;
      }
      assert regions[..i] == regions;
      var vars: map<string, string> := map[];
      vars := vars[UserVar := SshUser];
      vars := vars[KeyFileVar := KeyFile];
      otherVars := Some(vars);
    }
  }

  /** The Name-tag scan of one instance: the value of the last tag keyed "Name", or ""
      when the instance has no tags or none of them is keyed "Name". */
  method NameTag(tags: Option<seq<Tag>>) returns (tagName: string)
    ensures tagName == LastNameTag(TagList(tags))
  {
    tagName := "";
    if tags.Some? && |tags.value| > 0 {
      var ts := tags.value;
      var k := 0;
      while k < |ts|
        invariant 0 <= k <= |ts|
        invariant tagName == LastNameTag(ts[..k])
      {
        if ts[k].key == NameKey {
          tagName := ts[k].value;
        }
        assert ts[..k + 1][..k] == ts[..k];
        k := k + 1;
      }
      assert ts[..k] == ts;
    } else {
      tagName := "";
    }
  }

  /** A whole run: the empty document, filled by one pass over the regions. */
  method BuildInventory(regions: seq<Region>) returns (doc: InventoryDocument)
    ensures doc.Valid()
    ensures doc.webservers == HostIds(Enumerated(regions))
    ensures doc.hostvars == Recorded(map[], Enumerated(regions))
    ensures doc.hostvars.Keys == set id | id in HostIds(Enumerated(regions))
    ensures doc.otherHosts == []
    ensures doc.otherVars == Some(OtherVars())
  {
    doc := new InventoryDocument();
    doc.ListEC2Hosts(regions);
  }
}
