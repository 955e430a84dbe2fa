/** SaveService and ReadService of server/discovery/discovery_storage.go over the disk store. */
module ServiceStorage {
  import opened Common
  import opened Names

  /** SaveService: the record under the service name, the cluster names in one list. */
  function Saved(disk: map<string, string>, name: string, record: string, clusters: seq<string>): (d: map<string, string>)
    ensures d.Keys == disk.Keys + {name, ParseServiceClusterList(name)}
    ensures forall k :: k in disk && k != name && k != ParseServiceClusterList(name) ==> d[k] == disk[k]
  {
    disk[name := record][ParseServiceClusterList(name) := Join(clusters, ",")]
  }

  /** Every name is a key of the store whose value decodes. */
  ghost predicate Readable(disk: map<string, string>, names: seq<string>, decodes: string -> bool) {
    forall i :: 0 <= i < |names| ==> names[i] in disk && decodes(disk[names[i]])
  }

  predicate Stored(disk: map<string, string>, names: seq<string>) {
    forall i :: 0 <= i < |names| ==> names[i] in disk
  }

  /** How many of the stored names come before the first whose value does not decode. */
  function DecodedUpTo(disk: map<string, string>, names: seq<string>, decodes: string -> bool): (n: nat)
    requires Stored(disk, names)
    ensures n <= |names| && (n < |names| ==> !decodes(disk[names[n]]))
    ensures forall i :: 0 <= i < n ==> decodes(disk[names[i]])
  {
    if names == [] || !decodes(disk[names[0]]) then 0
    else
      assert forall i :: 0 <= i < |names[1..]| ==> names[1..][i] == names[i + 1];
      1 + DecodedUpTo(disk, names[1..], decodes)
  }

  class KvDiscoveryStorage {
    var diskKv: map<string, string>
    /** proto.Unmarshal accepts these bytes. */
    const decodes: string -> bool

    constructor (decodes: string -> bool)
      ensures diskKv == map[] && this.decodes == decodes
    {
      this.decodes := decodes;
      diskKv := map[];
    }

    /** clusters is what Clusters.Keys() lists; record is the marshalled service. */
    method SaveService(name: string, record: string, clusters: seq<string>)
      modifies this
      ensures diskKv == Saved(old(diskKv), name, record, clusters)
    {
      var list, _ := BuildJoin(clusters, ",");
      var keys, values := [name, ParseServiceClusterList(name)], [record, list];
      diskKv := diskKv[keys[0] := values[0]];
      diskKv := diskKv[keys[1] := values[1]];
    }

    /**
     Besides the verdict, what is left in the query: the record, once it is decoded, and the
     clusters put before an error. Badger answers a batch with a missing key with an error, so no
     cluster is put then; a value that does not decode stops the loop.
     */
    method ReadService(name: string) returns (ok: bool, record: Option<string>, put: seq<string>)
      ensures var list := ParseServiceClusterList(name);
              if name !in diskKv || list !in diskKv || !decodes(diskKv[name]) then !ok && record == None && put == []
              else
                var names := Split(diskKv[list], ',');
                && record == Some(diskKv[name]) && (ok <==> Readable(diskKv, names, decodes))
                && if Stored(diskKv, names) then put == names[..DecodedUpTo(diskKv, names, decodes)] else put == []
    {
      var list := ParseServiceClusterList(name);
      ok, record, put := false, None, [];
      if name !in diskKv || list !in diskKv { return; }
      if !decodes(diskKv[name]) { return; }
      record := Some(diskKv[name]);
      var clusterNames := Split(diskKv[list], ',');
      var values := ReadBatch(clusterNames);
      if values.None? { return; }
      for i := 0 to |clusterNames|
        invariant put == clusterNames[..i] && i <= DecodedUpTo(diskKv, clusterNames, decodes)
      {
        if !decodes(values.value[i]) { return; }
        put := put + [clusterNames[i]];
      }
      ok := true;
    }

    method ReadBatch(keys: seq<string>) returns (values: Option<seq<string>>)
      ensures values.Some? <==> Stored(diskKv, keys)
      ensures values.Some? ==> |values.value| == |keys| && forall i :: 0 <= i < |keys| ==> values.value[i] == diskKv[keys[i]]
    {
      var vs := [];
      for i := 0 to |keys|
        invariant |vs| == i && Stored(diskKv, keys[..i]) && forall j :: 0 <= j < i ==> vs[j] == diskKv[keys[j]]
      {
        if keys[i] !in diskKv { return None; }
        vs := vs + [diskKv[keys[i]]];
      }
      assert keys[..|keys|] == keys;
      values := Some(vs);
    }
  }

  /**
   A service that was saved reads back with its clusters exactly when it has clusters, none of
   their names holds a comma, and each name is itself a key of the store. In particular a
   service saved when it is created, without clusters, does not.
   */
  lemma SaveThenRead(disk: map<string, string>, name: string, record: string, clusters: seq<string>, decodes: string -> bool)
    requires decodes(record)
    ensures var d, list := Saved(disk, name, record, clusters), ParseServiceClusterList(name);
            && name in d && list in d && d[name] == record && decodes(d[name])
            && (Readable(d, Split(d[list], ','), decodes) && Split(d[list], ',') == clusters <==>
                clusters != [] && (forall i :: 0 <= i < |clusters| ==> ',' !in clusters[i]) && Readable(d, clusters, decodes))
  {
    assert |ParseServiceClusterList(name)| > |name|;
    SplitUndoesJoin(clusters, ',');
  }
}
