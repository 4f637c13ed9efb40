/** The in-memory capability store: an object over two maps and an id counter. */
module CapabilityStore {
  import opened Wrappers
  import opened MachineInt
  import opened Requests
  import opened CapabilityTree
  import opened Revocation
  import opened StoreModel

  class InMemoryStore {
    var capabilities: map<(PluginId, CapId), Entry>
    var pluginCapabilities: map<PluginId, set<CapId>>
    var nextCapabilityId: usize

    ghost function Abs(): State
      reads this
    {
      State(capabilities, pluginCapabilities, nextCapabilityId)
    }

    constructor ()
      ensures Abs() == INITIAL
    {
      capabilities, pluginCapabilities, nextCapabilityId := map[], map[], 1;
    }

    method GenerateId() returns (id: CapId)
      modifies this`nextCapabilityId
      ensures id == old(nextCapabilityId) && nextCapabilityId == WrapAdd(old(nextCapabilityId), 1)
    {
      id := nextCapabilityId;
      nextCapabilityId := WrapAdd(nextCapabilityId, 1);
    }

    method AddCapability(plugin: PluginId, cap: Cap) returns (id: CapId)
      modifies this
      ensures id == old(nextCapabilityId)
      ensures Abs() == Apply(old(Abs()), Add(plugin, cap))
    {
      id := GenerateId();
      capabilities := capabilities[(plugin, id) := Entry(cap, 1)];
      if plugin !in pluginCapabilities {
        pluginCapabilities := pluginCapabilities[plugin := {}];
      }
      pluginCapabilities := pluginCapabilities[plugin := pluginCapabilities[plugin] + {id}];
      assert pluginCapabilities == Apply(old(Abs()), Add(plugin, cap)).plugins;
    }

    method GetCapability(plugin: PluginId, id: CapId) returns (cap: Option<Cap>)
      ensures cap.Some? <==> (plugin, id) in capabilities
      ensures cap.Some? ==> cap.value == capabilities[(plugin, id)].cap
    {
      if (plugin, id) !in capabilities {
        return None;
      }
      return Some(capabilities[(plugin, id)].cap);
    }

    method RemoveCapability(plugin: PluginId, id: CapId) returns (found: bool)
      modifies this
      ensures found <==> (plugin, id) in old(capabilities)
      ensures Abs() == Apply(old(Abs()), Remove(plugin, id))
    {
      if (plugin, id) !in capabilities {
        return false;
      }
      capabilities := capabilities - {(plugin, id)};
      if plugin in pluginCapabilities {
        pluginCapabilities := pluginCapabilities[plugin := pluginCapabilities[plugin] - {id}];
      }
      return true;
    }

    method ReplaceCapability(plugin: PluginId, id: CapId, cap: Cap) returns (found: bool)
      modifies this
      ensures found <==> (plugin, id) in old(capabilities)
      ensures Abs() == Apply(old(Abs()), Replace(plugin, id, cap))
    {
      var key := (plugin, id);
      if key !in capabilities {
        return false;
      }
      capabilities := capabilities[key := Entry(cap, WrapAdd(capabilities[key].generation, 1))];
      return true;
    }

    /** The listed capabilities that still exist, each id once, in no fixed order. */
    method ListCapabilities(plugin: PluginId) returns (result: seq<(CapId, Cap)>)
      ensures forall x :: x in result ==>
                x.0 in IdsOf(Abs(), plugin) && (plugin, x.0) in capabilities && x.1 == capabilities[(plugin, x.0)].cap
      ensures forall id :: id in IdsOf(Abs(), plugin) && (plugin, id) in capabilities ==>
                (id, capabilities[(plugin, id)].cap) in result
      ensures forall i, j :: 0 <= i < j < |result| ==> result[i].0 != result[j].0
    {
      result := [];
      if plugin !in pluginCapabilities {
        return;
      }
      var todo := pluginCapabilities[plugin];
      while todo != {}
        invariant todo <= pluginCapabilities[plugin]
        invariant forall x :: x in result ==>
                    && x.0 in pluginCapabilities[plugin] && x.0 !in todo
                    && (plugin, x.0) in capabilities && x.1 == capabilities[(plugin, x.0)].cap
        invariant forall id :: id in pluginCapabilities[plugin] && id !in todo && (plugin, id) in capabilities ==>
                    (id, capabilities[(plugin, id)].cap) in result
        invariant forall i, j :: 0 <= i < j < |result| ==> result[i].0 != result[j].0
      {
        var id :| id in todo;
        if (plugin, id) in capabilities {
          var item := (id, capabilities[(plugin, id)].cap);
          assert forall x :: x in result + [item] <==> x in result || x == item;
          result := result + [item];
        }
        todo := todo - {id};
      }
    }

    method ClearPluginCapabilities(plugin: PluginId)
      modifies this
      ensures Abs() == Apply(old(Abs()), Clear(plugin))
    {
      ghost var ids := IdsOf(Abs(), plugin);
      if plugin in pluginCapabilities {
        var todo := pluginCapabilities[plugin];
        while todo != {}
          invariant todo <= ids && pluginCapabilities == old(pluginCapabilities)
          invariant nextCapabilityId == old(nextCapabilityId)
          invariant capabilities.Keys <= old(capabilities.Keys)
          invariant forall k :: k in old(capabilities) ==>
                      (k in capabilities <==> !(k.0 == plugin && k.1 in ids - todo))
          invariant forall k :: k in capabilities ==> capabilities[k] == old(capabilities)[k]
        {
          var id :| id in todo;
          capabilities := capabilities - {(plugin, id)};
          todo := todo - {id};
        }
      }
      pluginCapabilities := pluginCapabilities - {plugin};
      assert capabilities == Apply(old(Abs()), Clear(plugin)).capabilities;
    }

    /** Get, wrap, replace. */
    method PartialRevokeCapability(plugin: PluginId, id: CapId, request: Request) returns (found: bool)
      modifies this
      ensures found <==> (plugin, id) in old(capabilities)
      ensures Abs() == Apply(old(Abs()), PartialRevoke(plugin, id, request))
    {
      var cap := GetCapability(plugin, id);
      if cap.None? {
        return false;
      }
      found := ReplaceCapability(plugin, id, Revoke(cap.value, request));
    }

    /** `check_permission`: the first listed capability that permits the request decides. */
    method CheckPermission(plugin: PluginId, request: Request) returns (ok: bool)
      ensures ok <==> Grants(Abs(), plugin, request)
    {
      var listed := ListCapabilities(plugin);
      for i := 0 to |listed|
        invariant forall j :: 0 <= j < i ==> !Permits(listed[j].1, request)
      {
        if Permits(listed[i].1, request) {
          assert listed[i] in listed;
          return true;
        }
      }
      return false;
    }
  }
}
