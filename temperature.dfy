/** The sensor side (main/temperature.c): discovery of the two one-wire
    temperature sensors, kept in the globals `tempSensors` and
    `sensorsFound`, and the read of both sensors.

    The ds18b20 driver is outside the model. Its `search` is an oracle: the
    list of answers it gives to successive calls after `reset_search`, a
    device's address or "none left", and "none left" once the list is used
    up; a found address is what the driver writes into the slot it was given.
    Temperatures are opaque values that `getTempC` yields for an address. */
module Temperature {
  import opened Wire

  /** `TempSensorId` (main/temperature.h). */
  const AMBIENT_TEMP_SENSOR: nat := 0
  const WATER_TEMP_SENSOR: nat := 1
  const TEMP_SENSOR_COUNT: nat := 2

  /** `DeviceAddress`: the 8-byte ROM code of a one-wire device. */
  type Address = a: seq<u8> | |a| == 8 witness [0, 0, 0, 0, 0, 0, 0, 0]

  /** A slot of the zero-initialised global array that no search has filled. */
  const ZERO_ADDRESS: Address := [0, 0, 0, 0, 0, 0, 0, 0]

  /** One answer of the driver's `search`. */
  datatype SearchResult = Found(address: Address) | NotFound

  /** The answer to the `i`-th search since the reset. */
  function SearchAt(bus: seq<SearchResult>, i: nat): SearchResult
  {
    if i < |bus| then bus[i] else NotFound
  }

  /** What one discovery pass does: the count it ends with, the addresses it
      records (in slots `count0`, `count0 + 1`, ... where `count0` is the
      count it started from) and how many times it called `search`. */
  datatype Discovery = Discovery(count: nat, found: seq<Address>, searches: nat)

  /** The loop of `getTempAddresses` as the source has it: search into slot
      `count`; on success count it, and stop when the count has just become
      two; stop at the first search that finds nothing. The test for two
      comes only after a search, so nothing keeps the slot below two when the
      pass starts at two or more. */
  function DiscoverAsWritten(count: nat, bus: seq<SearchResult>): (r: Discovery)
    ensures r.count == count + |r.found|
    ensures forall k :: 0 <= k < |r.found| ==> SearchAt(bus, k) == Found(r.found[k])
    ensures count < TEMP_SENSOR_COUNT ==> r.count <= TEMP_SENSOR_COUNT
    ensures r.count != TEMP_SENSOR_COUNT ==> SearchAt(bus, |r.found|).NotFound?
    decreases |bus|
  {
    match SearchAt(bus, 0)
    case NotFound => Discovery(count, [], 1)
    case Found(a) =>
      if count + 1 == TEMP_SENSOR_COUNT then Discovery(count + 1, [a], 1)
      else
        var rest := DiscoverAsWritten(count + 1, bus[1..]);
        assert forall k :: 0 <= k < |rest.found| ==> SearchAt(bus, k + 1) == SearchAt(bus[1..], k);
        Discovery(rest.count, [a] + rest.found, 1 + rest.searches)
  }

  /** Every slot a pass records into (`count0` up to `count0 + |found| - 1`) lies in the two-slot array. */
  predicate SlotsInBounds(count0: nat, r: Discovery)
  {
    count0 + |r.found| <= TEMP_SENSOR_COUNT
  }

  /** A later call, after both sensors were found, writes the next device it
      finds into slot 2, past the end of the two-slot array. */
  lemma AsWrittenOverrunsAfterTwo(a: Address)
    ensures var r := DiscoverAsWritten(TEMP_SENSOR_COUNT, [Found(a)]);
            r.found == [a] && r.count == TEMP_SENSOR_COUNT + 1 && !SlotsInBounds(TEMP_SENSOR_COUNT, r)
  {
    assert [Found(a)][1..] == [];
  }

  /** The loop with the bound it evidently intends: no search once both slots are full. */
  function Discover(count: nat, bus: seq<SearchResult>): (r: Discovery)
    ensures count <= TEMP_SENSOR_COUNT ==> r.count == count + |r.found| && SlotsInBounds(count, r)
    ensures count >= TEMP_SENSOR_COUNT ==> r == Discovery(count, [], 0)
    ensures forall k :: 0 <= k < |r.found| ==> SearchAt(bus, k) == Found(r.found[k])
    ensures count < TEMP_SENSOR_COUNT && r.count < TEMP_SENSOR_COUNT ==>
              SearchAt(bus, |r.found|).NotFound? && r.searches == |r.found| + 1
    ensures r.count == TEMP_SENSOR_COUNT ==> r.searches == |r.found|
    decreases |bus|
  {
    if count >= TEMP_SENSOR_COUNT then Discovery(count, [], 0)
    else
      match SearchAt(bus, 0)
      case NotFound => Discovery(count, [], 1)
      case Found(a) =>
        var rest := Discover(count + 1, bus[1..]);
        assert forall k :: 0 <= k < |rest.found| ==> SearchAt(bus, k + 1) == SearchAt(bus[1..], k);
        Discovery(rest.count, [a] + rest.found, 1 + rest.searches)
  }

  /** From every count the program can reach before two sensors are found,
      the corrected loop does exactly what the source does. */
  lemma {:induction false} DiscoverAgreesBelowTwo(count: nat, bus: seq<SearchResult>)
    requires count < TEMP_SENSOR_COUNT
    ensures Discover(count, bus) == DiscoverAsWritten(count, bus)
    decreases |bus|
  {
    match SearchAt(bus, 0)
    case NotFound =>
    case Found(a) =>
      if count + 1 < TEMP_SENSOR_COUNT {
        DiscoverAgreesBelowTwo(count + 1, bus[1..]);
      }
  }

  /** A pass is determined by the devices it records: if `found` are the
      first answers of the bus and the pass then either filled both slots or
      met "none left", that is the pass. */
  lemma {:induction false} DiscoverIs(count: nat, bus: seq<SearchResult>, found: seq<Address>)
    requires count + |found| <= TEMP_SENSOR_COUNT
    requires forall k :: 0 <= k < |found| ==> SearchAt(bus, k) == Found(found[k])
    requires count + |found| == TEMP_SENSOR_COUNT || SearchAt(bus, |found|).NotFound?
    ensures Discover(count, bus)
         == Discovery(count + |found|, found, |found| + if count + |found| < TEMP_SENSOR_COUNT then 1 else 0)
    decreases |found|
  {
    if found != [] {
      assert SearchAt(bus, 0) == Found(found[0]);
      forall k | 0 <= k < |found[1..]| ensures SearchAt(bus[1..], k) == Found(found[1..][k]) {
        assert SearchAt(bus, k + 1) == Found(found[k + 1]);
      }
      assert |found| == 1 + |found[1..]|;
      assert SearchAt(bus[1..], |found[1..]|) == SearchAt(bus, |found|);
      DiscoverIs(count + 1, bus[1..], found[1..]);
      assert [found[0]] + found[1..] == found;
    }
  }

  /** Discovery stops at the first search that finds nothing: if the bus
      reports `j` devices before answering "none left", `j` more are recorded,
      up to the two slots. */
  lemma StopsAtFirstFailure(count: nat, bus: seq<SearchResult>, j: nat)
    requires count < TEMP_SENSOR_COUNT
    requires forall k :: 0 <= k < j ==> SearchAt(bus, k).Found?
    requires SearchAt(bus, j).NotFound?
    ensures Discover(count, bus).count == if count + j <= TEMP_SENSOR_COUNT then count + j else TEMP_SENSOR_COUNT
  {
  }

  /** Two passes in a row: the second resumes at the count the first left,
      and together they record what the first found and then what the second found. */
  lemma {:induction false} SecondPassResumes(count: nat, bus1: seq<SearchResult>, bus2: seq<SearchResult>)
    requires count <= TEMP_SENSOR_COUNT
    ensures var r1 := Discover(count, bus1);
            var r2 := Discover(r1.count, bus2);
            r1.count <= r2.count == count + |r1.found| + |r2.found| <= TEMP_SENSOR_COUNT
            && (r1.count == TEMP_SENSOR_COUNT ==> r2.found == [] && r2.searches == 0)
  {
  }

  /** An array that differs from its old contents only in slots `c0` to
      `c - 1` is the old prefix, those slots, and the old suffix. */
  lemma Splice(cur: seq<Address>, a0: seq<Address>, c0: nat, c: nat)
    requires |cur| == |a0| && c0 <= c <= |cur|
    requires forall k :: 0 <= k < |cur| && !(c0 <= k < c) ==> cur[k] == a0[k]
    ensures cur == a0[..c0] + cur[c0..c] + a0[c..]
  {
    var spliced := a0[..c0] + cur[c0..c] + a0[c..];
    forall k | 0 <= k < |cur| ensures cur[k] == spliced[k] {
      if k < c0 {
      } else if k < c {
        assert spliced[k] == cur[c0..c][k - c0];
      } else {
        assert spliced[k] == a0[k];
      }
    }
  }

  /** The state a discovery loop leaves behind is the pass `Discover` describes:
      the slots from `c0` to `c - 1` hold the first answers of the bus, every
      other slot is as it was, and the loop either filled both slots or
      stopped at the search after the last device. */
  lemma SearchedInto(bus: seq<SearchResult>, a0: seq<Address>, cur: seq<Address>, c0: nat, c: nat, calls: nat)
    requires |cur| == |a0| == TEMP_SENSOR_COUNT && c0 <= c <= TEMP_SENSOR_COUNT
    requires forall k :: 0 <= k < c - c0 ==> SearchAt(bus, k) == Found(cur[c0 + k])
    requires forall k :: 0 <= k < |cur| && !(c0 <= k < c) ==> cur[k] == a0[k]
    requires (c == TEMP_SENSOR_COUNT && calls == c - c0)
          || (c < TEMP_SENSOR_COUNT && SearchAt(bus, c - c0).NotFound? && calls == c - c0 + 1)
    ensures Discover(c0, bus) == Discovery(c, cur[c0..c], calls)
    ensures cur == a0[..c0] + Discover(c0, bus).found + a0[c..]
  {
    var found := cur[c0..c];
    forall k | 0 <= k < |found| ensures SearchAt(bus, k) == Found(found[k]) {
      assert found[k] == cur[c0 + k];
    }
    DiscoverIs(c0, bus, found);
    Splice(cur, a0, c0, c);
  }

  /** One operation on the one-wire bus. */
  datatype BusOp = RequestTemperatures | GetTempC(address: Address)

  /** The globals of temperature.c. */
  class Sensors {
    var tempSensors: array<Address>
    var sensorsFound: nat

    /** At most two sensors are counted, and a slot no discovery reached keeps the zero address. */
    ghost predicate Valid()
      reads this, tempSensors
    {
      && tempSensors.Length == TEMP_SENSOR_COUNT
      && sensorsFound <= TEMP_SENSOR_COUNT
      && forall k :: sensorsFound <= k < TEMP_SENSOR_COUNT ==> tempSensors[k] == ZERO_ADDRESS
    }

    /** The state at start-up: a zeroed array and `sensorsFound = 0`. */
    constructor ()
      ensures Valid() && fresh(tempSensors)
      ensures sensorsFound == 0 && tempSensors[..] == [ZERO_ADDRESS, ZERO_ADDRESS]
    {
      tempSensors := new Address[TEMP_SENSOR_COUNT](_ => ZERO_ADDRESS);
      sensorsFound := 0;
      new;
      assert tempSensors[..] == [tempSensors[0], tempSensors[1]];
    }

    /** `getTempAddresses(tempSensorAddresses)`, with the loop bounded by the
        two slots (see `Discover`). Returns whether it warned that it did not
        end with two sensors, and how many searches it made. */
    method GetTempAddresses(addrs: array<Address>, bus: seq<SearchResult>) returns (warned: bool, searches: nat)
      requires Valid() && addrs.Length == TEMP_SENSOR_COUNT
      modifies this, addrs
      ensures tempSensors == old(tempSensors)
      ensures var r := Discover(old(sensorsFound), bus);
              && sensorsFound == r.count
              && searches == r.searches
              && addrs[..] == old(addrs[..])[..old(sensorsFound)] + r.found + old(addrs[..])[sensorsFound..]
      ensures warned <==> sensorsFound != TEMP_SENSOR_COUNT
      ensures Valid()
    {
      // reset_search()
      ghost var c0 := sensorsFound;
      ghost var a0 := addrs[..];
      ghost var t0 := tempSensors[..];
      var calls := 0;
      while sensorsFound < TEMP_SENSOR_COUNT
        invariant tempSensors == old(tempSensors)
        invariant c0 <= sensorsFound <= TEMP_SENSOR_COUNT && calls == sensorsFound - c0
        invariant forall k :: 0 <= k < calls ==> SearchAt(bus, k) == Found(addrs[c0 + k])
        invariant forall k :: 0 <= k < addrs.Length && !(c0 <= k < sensorsFound) ==> addrs[k] == a0[k]
        decreases TEMP_SENSOR_COUNT - sensorsFound
      {
        var result := SearchAt(bus, calls);
        if result.NotFound? {
          calls := calls + 1;
          break;
        }
        addrs[sensorsFound] := result.address;
        sensorsFound := sensorsFound + 1;
        calls := calls + 1;
      }
      SearchedInto(bus, a0, addrs[..], c0, sensorsFound, calls);
      searches := calls;
      forall k | sensorsFound <= k < TEMP_SENSOR_COUNT ensures tempSensors[k] == ZERO_ADDRESS {
        assert t0[k] == ZERO_ADDRESS;
        if tempSensors == addrs {
          assert addrs[k] == a0[k];
        }
      }
      warned := sensorsFound != TEMP_SENSOR_COUNT;
    }

    /** `configureTempSensors`: discovery into the module's own array (bus
        set-up and sensor resolution are driver calls outside the model). */
    method ConfigureTempSensors(bus: seq<SearchResult>) returns (warned: bool)
      requires Valid()
      modifies this, tempSensors
      ensures tempSensors == old(tempSensors)
      ensures var r := Discover(old(sensorsFound), bus);
              sensorsFound == r.count
              && tempSensors[..] == old(tempSensors[..])[..old(sensorsFound)] + r.found + old(tempSensors[..])[sensorsFound..]
      ensures warned <==> sensorsFound != TEMP_SENSOR_COUNT
      ensures Valid()
    {
      var searches;
      warned, searches := GetTempAddresses(tempSensors, bus);
    }

    /** `getTemperatures(&ambTemp, &waterTemp)`: one conversion request for
        the whole bus, then the ambient sensor's slot, then the water sensor's. */
    method GetTemperatures<T>(getTempC: Address -> T) returns (ambTemp: T, waterTemp: T, ops: seq<BusOp>)
      requires Valid()
      ensures ambTemp == getTempC(tempSensors[AMBIENT_TEMP_SENSOR])
      ensures waterTemp == getTempC(tempSensors[WATER_TEMP_SENSOR])
      ensures ops == [RequestTemperatures, GetTempC(tempSensors[AMBIENT_TEMP_SENSOR]), GetTempC(tempSensors[WATER_TEMP_SENSOR])]
      ensures sensorsFound < TEMP_SENSOR_COUNT ==> waterTemp == getTempC(ZERO_ADDRESS)
    {
      ops := [RequestTemperatures];
      ambTemp := getTempC(tempSensors[AMBIENT_TEMP_SENSOR]);
      ops := ops + [GetTempC(tempSensors[AMBIENT_TEMP_SENSOR])];
      waterTemp := getTempC(tempSensors[WATER_TEMP_SENSOR]);
      ops := ops + [GetTempC(tempSensors[WATER_TEMP_SENSOR])];
    }
  }
}
