/** The driver object of libraries/BLE/nRF51822.cpp: fields, loops and in-place updates, each
    method proved against the transition function of module Gatt. */
module GattDriver {
  import opened Bytes
  import opened Gatt

  class Nrf51822 {
    var connection: Option<nat>
    var tx: Byte
    var local: seq<LocalCharacteristic>
    var services: seq<RemoteService>
    var characteristics: seq<RemoteCharacteristic>
    var index: nat
    var requestInProgress: bool

    function View(): Device
      reads this
    {
      Device(connection, tx, local, services, characteristics, index, requestInProgress)
    }

    /** `begin`: the registered tables, everything cleared. */
    constructor (handles: seq<(Handle, Handle)>, remoteServices: seq<(nat, Uuid)>, remote: seq<(Option<nat>, Uuid)>)
      ensures connection == None && tx == 0 && !requestInProgress && index == 0
      ensures |local| == |handles| && |services| == |remoteServices| && |characteristics| == |remote|
      ensures forall i :: 0 <= i < |local| ==>
                local[i] == LocalCharacteristic(handles[i].0, handles[i].1, false, false, false)
      ensures forall i :: 0 <= i < |services| ==>
                services[i] == RemoteService(remoteServices[i].0, remoteServices[i].1, NO_RANGE)
      ensures forall i :: 0 <= i < |characteristics| ==>
                characteristics[i] == RemoteCharacteristic(remote[i].0, remote[i].1, NO_PROPERTIES, 0)
    {
      connection, tx, index, requestInProgress := None, 0, 0, false;
      local := seq(|handles|, i requires 0 <= i < |handles| =>
        LocalCharacteristic(handles[i].0, handles[i].1, false, false, false));
      services := seq(|remoteServices|, i requires 0 <= i < |remoteServices| =>
        RemoteService(remoteServices[i].0, remoteServices[i].1, NO_RANGE));
      characteristics := seq(|remote|, i requires 0 <= i < |remote| =>
        RemoteCharacteristic(remote[i].0, remote[i].1, NO_PROPERTIES, 0));
    }

    /** `poll`: one SoftDevice event (and the two calls that send packets). */
    method Poll(e: Event) returns (actions: seq<Action>)
      requires Meaningful(View(), e)
      modifies this
      ensures Outcome(View(), actions) == Step(old(View()), e)
    {
      match e
      case TxComplete(count) =>
        tx := (tx + count) % 256;
        actions := [];
      case Connected(conn, credit) =>
        connection, tx := Some(conn), credit;
        actions := if |services| > 0 then [DiscoverServices(1)] else [];
      case Disconnected =>
        actions := Disconnect();
      case Write(handle, data) =>
        actions := HandleWrite(handle, data);
      case ServicesResponse(status, found) =>
        actions := HandleServices(status, found);
      case CharacteristicsResponse(status, declared) =>
        actions := HandleCharacteristics(status, declared);
      case RemoteAnswered =>
        requestInProgress := false;
        actions := [];
      case UpdateValue(i) =>
        var _, sent := UpdateCharacteristicValue(i);
        actions := sent;
      case WriteRemote(i) =>
        var _, sent := WriteRemoteCharacteristic(i, true);
        actions := sent;
    }

    method Disconnect() returns (actions: seq<Action>)
      modifies this
      ensures Outcome(View(), actions) == OnDisconnected(old(View()))
    {
      connection, tx := None, 0;
      actions := ClearSubscriptions();
      ClearRemoteHandles();
      requestInProgress := false;
    }

    method ClearSubscriptions() returns (actions: seq<Action>)
      modifies this`local
      ensures local == OnDisconnected(old(View())).device.local
      ensures actions == Unsubscriptions(old(local))
    {
      actions := [];
      for i := 0 to |local|
        invariant |local| == |old(local)|
        invariant forall j :: 0 <= j < i ==> local[j] == ClearedLocal(old(local)[j])
        invariant forall j :: i <= j < |local| ==> local[j] == old(local)[j]
        invariant actions == Unsubscriptions(old(local)[..i])
      {
        assert old(local)[..i + 1][..i] == old(local)[..i];
        local := local[i := local[i].(notify := false, indicate := false)];
        if local[i].subscribed {
          local := local[i := local[i].(subscribed := false)];
          actions := actions + [SubscribedChanged(i, false)];
        }
      }
      assert old(local)[..|local|] == old(local);
    }

    method ClearRemoteHandles()
      modifies this`services, this`characteristics
      ensures services == OnDisconnected(old(View())).device.services
      ensures characteristics == OnDisconnected(old(View())).device.characteristics
    {
      for i := 0 to |services|
        invariant |services| == |old(services)| && characteristics == old(characteristics)
        invariant forall j :: 0 <= j < i ==> services[j] == old(services)[j].(range := NO_RANGE)
        invariant forall j :: i <= j < |services| ==> services[j] == old(services)[j]
      {
        services := services[i := services[i].(range := NO_RANGE)];
      }
      assert services == OnDisconnected(old(View())).device.services;
      for i := 0 to |characteristics|
        invariant |characteristics| == |old(characteristics)|
        invariant services == OnDisconnected(old(View())).device.services
        invariant forall j :: 0 <= j < i ==>
                    characteristics[j] == old(characteristics)[j].(properties := NO_PROPERTIES, valueHandle := 0)
        invariant forall j :: i <= j < |characteristics| ==> characteristics[j] == old(characteristics)[j]
      {
        characteristics := characteristics[i := characteristics[i].(properties := NO_PROPERTIES, valueHandle := 0)];
      }
    }

    method UpdateCharacteristicValue(ch: nat) returns (success: bool, actions: seq<Action>)
      modifies this`tx
      ensures Outcome(View(), actions) == OnUpdate(old(View()), ch)
      ensures success == UpdateSucceeds(old(View()), ch)
    {
      success, actions := true, [];
      for i := 0 to |local|
        invariant i <= ch ==> tx == old(tx) && actions == [] && success
        invariant i > ch ==> Outcome(View(), actions) == OnUpdate(old(View()), ch)
        invariant i > ch ==> success == UpdateSucceeds(old(View()), ch)
      {
        if i == ch {
          if local[i].notify {
            if tx > 0 {
              tx := tx - 1;
              actions := actions + [Notify(i)];
            } else {
              success := false;
            }
          }
          if local[i].indicate {
            if tx > 0 {
              tx := tx - 1;
              actions := actions + [Indicate(i)];
            } else {
              success := false;
            }
          }
        }
      }
    }

    /** `accepted` is the answer of the SoftDevice, should it be asked to write. */
    method WriteRemoteCharacteristic(ch: nat, accepted: bool) returns (success: bool, actions: seq<Action>)
      modifies this
      ensures Outcome(View(), actions) == OnWriteRemote(old(View()), ch)
      ensures success <==> accepted && actions != []
    {
      success, actions := false, [];
      for i := 0 to |characteristics|
        invariant i <= ch && View() == old(View()) && actions == [] && !success
      {
        if i == ch {
          var c := characteristics[i];
          if c.valueHandle != 0 && (c.properties.writeWithoutResponse || c.properties.write) && tx > 0 {
            requestInProgress := true;
            tx := tx - 1;
            actions := [RemoteWrite(c.valueHandle, c.properties.write)];
            success := accepted;
          }
          break;
        }
      }
    }

    method HandleWrite(handle: Handle, data: nat) returns (actions: seq<Action>)
      modifies this
      ensures Outcome(View(), actions) == OnWriteFrom(old(View()), handle, data, 0)
    {
      actions := [];
      var i := 0;
      while i < |local|
        invariant 0 <= i <= |local| && actions == []
        invariant OnWriteFrom(View(), handle, data, i) == OnWriteFrom(old(View()), handle, data, 0)
        decreases |local| - i
      {
        if local[i].valueHandle == handle {
          var _, sent := UpdateCharacteristicValue(i);
          return sent;
        } else if local[i].cccdHandle == handle {
          var c := local[i].(notify := Bit(data, 1), indicate := Bit(data, 2));
          var subscribed := c.notify || c.indicate;
          if subscribed != c.subscribed {
            local := local[i := c.(subscribed := subscribed)];
            return [SubscribedChanged(i, subscribed)];
          }
          local := local[i := c];
        }
        i := i + 1;
      }
    }

    method HandleServices(status: Status, found: seq<ServiceDecl>) returns (actions: seq<Action>)
      requires status == Success ==> found != []
      modifies this
      ensures Outcome(View(), actions) == OnServices(old(View()), status, found)
    {
      if status == Success {
        for i := 0 to |found|
          invariant services == RecordServices(old(services), found[..i])
          invariant View() == old(View()).(services := services)
        {
          ghost var before := services;
          assert found[..i + 1][..i] == found[..i];
          for j := 0 to |services|
            invariant services == before && (forall k :: 0 <= k < j ==> services[k].uuid != found[i].uuid)
            invariant View() == old(View()).(services := services)
          {
            if found[i].uuid == services[j].uuid {
              services := services[j := services[j].(range := found[i].range)];
              break;
            }
          }
          assert services == RecordService(before, found[i]);
        }
        assert found[..|found|] == found;
        actions := [DiscoverServices((found[|found| - 1].range.end + 1) % 0x10000)];
      } else if status == InvalidHandle {
        actions := DiscoverFrom(0);
      } else {
        actions := [Message(status)];
      }
    }

    /** The two searches for the next service to sweep. */
    method DiscoverFrom(from: nat) returns (actions: seq<Action>)
      requires from <= |services|
      modifies this`index
      ensures var i := NextFound(services, from);
              if i < |services| then index == i && actions == [DiscoverCharacteristics(services[i].range)]
              else index == old(index) && actions == []
    {
      var i := from;
      actions := [];
      while i < |services|
        invariant from <= i <= |services| && index == old(index)
        invariant NextFound(services, i) == NextFound(services, from)
      {
        if services[i].range.start != 0 && services[i].range.end != 0 {
          index := i;
          return [DiscoverCharacteristics(services[i].range)];
        }
        i := i + 1;
      }
    }

    method HandleCharacteristics(status: Status, declared: seq<CharacteristicDecl>) returns (actions: seq<Action>)
      requires index < |services|
      modifies this
      ensures Outcome(View(), actions) == OnCharacteristics(old(View()), status, declared)
    {
      if status == Success {
        var range := services[index].range;
        for i := 0 to |declared|
          invariant View() == old(View()).(characteristics := characteristics)
          invariant characteristics ==
                      RecordCharacteristics(old(characteristics), services[index].service, declared[..i])
          invariant range.end == services[index].range.end
          invariant range.start == if i == 0 then services[index].range.start else declared[i - 1].value
        {
          ghost var before := characteristics;
          assert declared[..i + 1][..i] == declared[..i];
          for j := 0 to |characteristics|
            invariant |characteristics| == |before| && View() == old(View()).(characteristics := characteristics)
            invariant forall k :: 0 <= k < j ==>
                        characteristics[k] == RecordCharacteristic(before, services[index].service, declared[i])[k]
            invariant forall k :: j <= k < |before| ==> characteristics[k] == before[k]
          {
            if Some(services[index].service) == characteristics[j].service &&
               declared[i].uuid == characteristics[j].uuid {
              characteristics := characteristics[j :=
                characteristics[j].(properties := declared[i].properties, valueHandle := declared[i].value)];
            }
          }
          assert characteristics == RecordCharacteristic(before, services[index].service, declared[i]);
          range := range.(start := declared[i].value);
        }
        assert declared[..|declared|] == declared;
        actions := [DiscoverCharacteristics(range)];
      } else if status == AttributeNotFound {
        actions := DiscoverFrom(index + 1);
        if actions == [] {
          actions := [RemoteServicesDiscovered];
        }
      } else {
        actions := [Message(status)];
      }
    }
  }
}
