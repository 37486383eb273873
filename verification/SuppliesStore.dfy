/**
  Updates of the supplies: each request reads the stock from the database, adds the deltas of
  a JSON message, never below zero, and writes the stock back. Module ServerRuns has whole
  runs of requests.
*/
module SuppliesStore {
  import opened Bytes
  import opened Json
  import opened Rendering
  import opened KeyValueStore
  import opened Supplies

  const FOOD_NAMES: seq<Text> := [MEAT, VEGETABLES, FRUITS, WATER]
  const MEDICINE_NAMES: seq<Text> := [ANTIBIOTICS, ANALGESICS, BANDAGES]

  lemma StockNames()
    ensures Names(FOOD_NAMES) && Names(MEDICINE_NAMES)
  {
    LowerCaseNames();
    assert MEAT[0] == 109 && VEGETABLES[0] == 118 && FRUITS[0] == 102 && WATER[0] == 119;
    assert |ANTIBIOTICS| == 11 && |ANALGESICS| == 10 && |BANDAGES| == 8;
    assert forall name :: LowerCase(name) ==> NUL !in name;
    hide LowerCase;
  }

  lemma LowerCaseNames()
    ensures LowerCase(MEAT) && LowerCase(VEGETABLES) && LowerCase(FRUITS) && LowerCase(WATER)
    ensures LowerCase(ANTIBIOTICS) && LowerCase(ANALGESICS) && LowerCase(BANDAGES)
  {
  }

  lemma StockSizes()
    ensures |FOOD_NAMES| == 4 && |MEDICINE_NAMES| == 3
  {
  }

  class FoodSupply {
    var meat: int32
    var vegetables: int32
    var fruits: int32
    var water: int32

    constructor (meat: int32, vegetables: int32, fruits: int32, water: int32)
      ensures Values() == [meat, vegetables, fruits, water]
    {
      this.meat, this.vegetables, this.fruits, this.water := meat, vegetables, fruits, water;
    }

    function Values(): seq<int32>
      reads this
    {
      [meat, vegetables, fruits, water]
    }
  }

  class MedicineSupply {
    var antibiotics: int32
    var analgesics: int32
    var bandages: int32

    constructor (antibiotics: int32, analgesics: int32, bandages: int32)
      ensures Values() == [antibiotics, analgesics, bandages]
    {
      this.antibiotics, this.analgesics, this.bandages := antibiotics, analgesics, bandages;
    }

    function Values(): seq<int32>
      reads this
    {
      [antibiotics, analgesics, bandages]
    }
  }

  /** The valueint of a parsed item. */
  function ValueInt(v: J): int32 {
    match v
    case Num(n) => n
    case Inexact(n) => n
    case Bool(b) => if b then 1 else 0
    case _ => 0
  }

  // ---- Reading and writing ----

  /** The database holds this stock. */
  ghost predicate Stocked(entries: map<Text, Text>, food: seq<int32>, medicine: seq<int32>) {
    && FOOD in entries && Reads(entries[FOOD], FOOD_NAMES, food)
    && MEDICINE in entries && Reads(entries[MEDICINE], MEDICINE_NAMES, medicine)
  }

  lemma DifferentKeys()
    ensures FOOD != MEDICINE
  {
    assert |FOOD| == 4 && |MEDICINE| == 8;
  }

  /** What init_rocksdb_supplies makes of a database that opens: what is there is kept. */
  function Initialised(entries: map<Text, Text>): map<Text, Text> {
    var withFood := if FOOD in entries then entries else entries[FOOD := InitialText(FOOD_NAMES)];
    if MEDICINE in withFood then withFood else withFood[MEDICINE := InitialText(MEDICINE_NAMES)]
  }

  /** The stock that a database without entries for it starts with is nothing. */
  ghost predicate StartsWith(entries: map<Text, Text>, food: seq<int32>, medicine: seq<int32>) {
    && (if FOOD in entries then Reads(entries[FOOD], FOOD_NAMES, food) else food == Zeros(4))
    && (if MEDICINE in entries then Reads(entries[MEDICINE], MEDICINE_NAMES, medicine) else medicine == Zeros(3))
  }

  lemma InitialStock(entries: map<Text, Text>, food: seq<int32>, medicine: seq<int32>)
    requires StartsWith(entries, food, medicine)
    ensures Stocked(Initialised(entries), food, medicine)
    ensures forall key | key != FOOD && key != MEDICINE :: Agree(entries, Initialised(entries), key)
  {
    DifferentKeys();
    StockNames();
    StockSizes();
    hide Reads, InitialText, Zeros, Names;
    InitialReads(FOOD_NAMES);
    InitialReads(MEDICINE_NAMES);
  }

  method InitSupplies(db: RocksDbWrapper)
    modifies db
    ensures db.entries == Initialised(old(db.entries))
  {
    var food := db.GetValueByKey(FOOD);
    if food.None? {
      db.Put(FOOD, InitialText(FOOD_NAMES));
    }
    var medicine := db.GetValueByKey(MEDICINE);
    if medicine.None? {
      db.Put(MEDICINE, InitialText(MEDICINE_NAMES));
    }
  }

  lemma FoodFound(json: Option<J>, values: seq<int32>)
    requires |values| == 4 && json == Some(Obj(Fields(FOOD_NAMES, values)))
    ensures GetItem(json, MEAT) == Some(Num(values[0])) && GetItem(json, VEGETABLES) == Some(Num(values[1]))
    ensures GetItem(json, FRUITS) == Some(Num(values[2])) && GetItem(json, WATER) == Some(Num(values[3]))
  {
    StockNames();
    hide GetItem, Fields, Names;
    FieldFound(FOOD_NAMES, values, 0);
    FieldFound(FOOD_NAMES, values, 1);
    FieldFound(FOOD_NAMES, values, 2);
    FieldFound(FOOD_NAMES, values, 3);
  }

  lemma MedicineFound(json: Option<J>, values: seq<int32>)
    requires |values| == 3 && json == Some(Obj(Fields(MEDICINE_NAMES, values)))
    ensures GetItem(json, ANTIBIOTICS) == Some(Num(values[0])) && GetItem(json, ANALGESICS) == Some(Num(values[1]))
    ensures GetItem(json, BANDAGES) == Some(Num(values[2]))
  {
    StockNames();
    hide GetItem, Fields, Names;
    FieldFound(MEDICINE_NAMES, values, 0);
    FieldFound(MEDICINE_NAMES, values, 1);
    FieldFound(MEDICINE_NAMES, values, 2);
  }

  lemma ReadsParses(text: Text, behind: Text, names: seq<Text>, values: seq<int32>)
    requires Reads(text, names, values) && NUL in behind
    ensures |names| == |values| && Parse(text, behind) == Some(Obj(Fields(names, values)))
  {
    hide Parse, Fields;
  }

  /** The valueint of the item under a name, which the getters expect to exist. */
  method IntItem(json: Option<J>, name: Text, ghost value: int32) returns (n: int32)
    requires GetItem(json, name) == Some(Num(value))
    ensures n == value
  {
    n := ValueInt(GetItem(json, name).value);
  }

  /** get_food_supply; `behind` are the bytes in memory behind the value. */
  method GetFoodSupply(db: RocksDbWrapper, opens: bool, behind: Text, ghost values: seq<int32>)
      returns (food: FoodSupply?)
    requires FOOD in db.entries && Reads(db.entries[FOOD], FOOD_NAMES, values) && NUL in behind
    ensures food != null <==> opens
    ensures food != null ==> fresh(food) && food.Values() == values
  {
    hide *;
    if !opens {
      return null;
    }
    StockSizes();
    var text := db.GetValueByKey(FOOD);
    ReadsParses(text.value, behind, FOOD_NAMES, values);
    var json := Parse(text.value, behind);
    FoodFound(json, values);
    var meat := IntItem(json, MEAT, values[0]);
    var vegetables := IntItem(json, VEGETABLES, values[1]);
    var fruits := IntItem(json, FRUITS, values[2]);
    var water := IntItem(json, WATER, values[3]);
    food := new FoodSupply(meat, vegetables, fruits, water);
  }

  /** get_medicine_supply. */
  method GetMedicineSupply(db: RocksDbWrapper, opens: bool, behind: Text, ghost values: seq<int32>)
      returns (medicine: MedicineSupply?)
    requires MEDICINE in db.entries && Reads(db.entries[MEDICINE], MEDICINE_NAMES, values) && NUL in behind
    ensures medicine != null <==> opens
    ensures medicine != null ==> fresh(medicine) && medicine.Values() == values
  {
    hide *;
    if !opens {
      return null;
    }
    StockSizes();
    var text := db.GetValueByKey(MEDICINE);
    ReadsParses(text.value, behind, MEDICINE_NAMES, values);
    var json := Parse(text.value, behind);
    MedicineFound(json, values);
    var antibiotics := IntItem(json, ANTIBIOTICS, values[0]);
    var analgesics := IntItem(json, ANALGESICS, values[1]);
    var bandages := IntItem(json, BANDAGES, values[2]);
    medicine := new MedicineSupply(antibiotics, analgesics, bandages);
  }

  /** The text of a stock, printed unformatted. */
  function StockText(names: seq<Text>, values: seq<int32>): Text
    requires |names| == |values|
  {
    Render(Obj(Fields(names, values)), false, 0)
  }

  /** update_food_supply_in_db; `written` says that the database opens and takes the value. */
  method UpdateFoodSupplyInDb(food: FoodSupply, db: RocksDbWrapper, written: bool)
    modifies db
    ensures db.entries ==
      if written then old(db.entries)[FOOD := StockText(FOOD_NAMES, food.Values())] else old(db.entries)
    ensures Reads(StockText(FOOD_NAMES, food.Values()), FOOD_NAMES, food.Values())
  {
    StockNames();
    PrintedReads(FOOD_NAMES, food.Values());
    hide Reads, Render;
    if written {
      db.Put(FOOD, StockText(FOOD_NAMES, food.Values()));
    }
  }

  /** update_medicine_supply_in_db. */
  method UpdateMedicineSupplyInDb(medicine: MedicineSupply, db: RocksDbWrapper, written: bool)
    modifies db
    ensures db.entries ==
      if written then old(db.entries)[MEDICINE := StockText(MEDICINE_NAMES, medicine.Values())] else old(db.entries)
    ensures Reads(StockText(MEDICINE_NAMES, medicine.Values()), MEDICINE_NAMES, medicine.Values())
  {
    StockNames();
    PrintedReads(MEDICINE_NAMES, medicine.Values());
    hide Reads, Render;
    if written {
      db.Put(MEDICINE, StockText(MEDICINE_NAMES, medicine.Values()));
    }
  }

  // ---- Updates ----

  /** The change a message asks for, 0 if it names no number for this item. */
  function Delta(json: Option<J>, section: Text, name: Text): int32 {
    match GetItem(json, section)
    case Some(Obj(members)) =>
      (match GetItem(Some(Obj(members)), name)
       case Some(Num(n)) => n
       case Some(Inexact(n)) => n
       case _ => 0)
    case _ => 0
  }

  /** The stock of some items after a message. */
  function After(values: seq<int32>, json: Option<J>, section: Text, names: seq<Text>): (after: seq<int>)
    requires |values| == |names|
    ensures |after| == |values|
    ensures forall i | 0 <= i < |values| :: after[i] == Larger(0, values[i] + Delta(json, section, names[i]))
  {
    seq(|values|, i requires 0 <= i < |values| => Larger(0, values[i] + Delta(json, section, names[i])))
  }

  function Larger(a: int, b: int): int {
    if a < b then b else a
  }

  /** No sum overflows a C int. */
  predicate Fits(values: seq<int32>, json: Option<J>, section: Text, names: seq<Text>)
    requires |values| == |names|
  {
    forall i | 0 <= i < |values| :: 0 <= values[i] && values[i] + Delta(json, section, names[i]) <= INT_MAX
  }

  /** The assignment for one item, on the object found for its section. */
  method Adjust(x: int32, section: J, name: Text, ghost delta: int32) returns (y: int32)
    requires section.Obj? && 0 <= x && x + delta <= INT_MAX
    requires delta == match GetItem(Some(section), name)
      case Some(Num(n)) => n
      case Some(Inexact(n)) => n
      case _ => 0
    ensures y == Larger(0, x + delta)
  {
    var item := GetItem(Some(section), name);
    y := x;
    if item.Some? && (item.value.Num? || item.value.Inexact?) {
      y := Larger(0, x + ValueInt(item.value));
    }
  }

  lemma NoSection(json: Option<J>, section: Text, name: Text)
    requires !(GetItem(json, section).Some? && GetItem(json, section).value.Obj?)
    ensures Delta(json, section, name) == 0
  {
  }

  lemma SectionDelta(json: Option<J>, section: Text, name: Text)
    requires GetItem(json, section).Some? && GetItem(json, section).value.Obj?
    ensures Delta(json, section, name) == match GetItem(Some(GetItem(json, section).value), name)
      case Some(Num(n)) => n
      case Some(Inexact(n)) => n
      case _ => 0
  {
    hide GetItem;
  }

  /** One item, given the item of its section. */
  method AdjustIn(x: int32, found: Option<J>, name: Text, ghost json: Option<J>, ghost section: Text) returns (y: int32)
    requires found == GetItem(json, section) && 0 <= x && x + Delta(json, section, name) <= INT_MAX
    ensures y == Larger(0, x + Delta(json, section, name))
  {
    if found.Some? && found.value.Obj? {
      SectionDelta(json, section, name);
      hide GetItem, Delta;
      y := Adjust(x, found.value, name, Delta(json, section, name));
    } else {
      NoSection(json, section, name);
      y := x;
    }
  }

  lemma FoodAfter(values: seq<int32>, json: Option<J>)
    requires |values| == 4
    ensures After(values, json, FOOD, FOOD_NAMES)
         == [Larger(0, values[0] + Delta(json, FOOD, MEAT)), Larger(0, values[1] + Delta(json, FOOD, VEGETABLES)),
             Larger(0, values[2] + Delta(json, FOOD, FRUITS)), Larger(0, values[3] + Delta(json, FOOD, WATER))]
    ensures Fits(values, json, FOOD, FOOD_NAMES) ==>
      && (forall i | 0 <= i < 4 :: 0 <= values[i])
      && values[0] + Delta(json, FOOD, MEAT) <= INT_MAX && values[1] + Delta(json, FOOD, VEGETABLES) <= INT_MAX
      && values[2] + Delta(json, FOOD, FRUITS) <= INT_MAX && values[3] + Delta(json, FOOD, WATER) <= INT_MAX
  {
    hide Delta;
    assert FOOD_NAMES[0] == MEAT && FOOD_NAMES[1] == VEGETABLES && FOOD_NAMES[2] == FRUITS && FOOD_NAMES[3] == WATER;
  }

  lemma MedicineAfter(values: seq<int32>, json: Option<J>)
    requires |values| == 3
    ensures After(values, json, MEDICINE, MEDICINE_NAMES)
         == [Larger(0, values[0] + Delta(json, MEDICINE, ANTIBIOTICS)),
             Larger(0, values[1] + Delta(json, MEDICINE, ANALGESICS)),
             Larger(0, values[2] + Delta(json, MEDICINE, BANDAGES))]
    ensures Fits(values, json, MEDICINE, MEDICINE_NAMES) ==>
      && (forall i | 0 <= i < 3 :: 0 <= values[i])
      && values[0] + Delta(json, MEDICINE, ANTIBIOTICS) <= INT_MAX
      && values[1] + Delta(json, MEDICINE, ANALGESICS) <= INT_MAX
      && values[2] + Delta(json, MEDICINE, BANDAGES) <= INT_MAX
  {
    hide Delta;
    assert MEDICINE_NAMES[0] == ANTIBIOTICS && MEDICINE_NAMES[1] == ANALGESICS && MEDICINE_NAMES[2] == BANDAGES;
  }

  /** The part of update_supplies_from_json about food. */
  method UpdateFood(food: FoodSupply, json: Option<J>)
    requires Fits(food.Values(), json, FOOD, FOOD_NAMES)
    modifies food
    ensures food.Values() == After(old(food.Values()), json, FOOD, FOOD_NAMES)
  {
    hide GetItem, Delta, Fits, After, Larger;
    FoodAfter(food.Values(), json);
    var section := GetItem(json, FOOD);
    food.fruits := AdjustIn(food.fruits, section, FRUITS, json, FOOD);
    food.vegetables := AdjustIn(food.vegetables, section, VEGETABLES, json, FOOD);
    food.meat := AdjustIn(food.meat, section, MEAT, json, FOOD);
    food.water := AdjustIn(food.water, section, WATER, json, FOOD);
  }

  /** The part of update_supplies_from_json about medicine. */
  method UpdateMedicine(medicine: MedicineSupply, json: Option<J>)
    requires Fits(medicine.Values(), json, MEDICINE, MEDICINE_NAMES)
    modifies medicine
    ensures medicine.Values() == After(old(medicine.Values()), json, MEDICINE, MEDICINE_NAMES)
  {
    hide GetItem, Delta, Fits, After, Larger;
    MedicineAfter(medicine.Values(), json);
    var section := GetItem(json, MEDICINE);
    medicine.antibiotics := AdjustIn(medicine.antibiotics, section, ANTIBIOTICS, json, MEDICINE);
    medicine.analgesics := AdjustIn(medicine.analgesics, section, ANALGESICS, json, MEDICINE);
    medicine.bandages := AdjustIn(medicine.bandages, section, BANDAGES, json, MEDICINE);
  }

  /**
    A message; what stands in memory behind the two values read, and whether the database opens
    for reading them; and which of the two writes that follow succeed.
  */
  datatype Request = Request(
    json: Option<J>, foodBehind: Text, medicineBehind: Text, foodOpens: bool, medicineOpens: bool,
    foodWritten: bool, medicineWritten: bool)
  {
    /** Both values are read, so that the stock is updated. */
    predicate Read() {
      foodOpens && medicineOpens
    }

    predicate Terminated() {
      NUL in foodBehind && NUL in medicineBehind
    }
  }

  /** update_supplies_from_json, on the stock as just read. */
  method UpdateSuppliesFromJson(food: FoodSupply, medicine: MedicineSupply, db: RocksDbWrapper, r: Request)
    requires Stocked(db.entries, food.Values(), medicine.Values())
    requires Fits(food.Values(), r.json, FOOD, FOOD_NAMES) && Fits(medicine.Values(), r.json, MEDICINE, MEDICINE_NAMES)
    modifies food, medicine, db
    ensures food.Values() == After(old(food.Values()), r.json, FOOD, FOOD_NAMES)
    ensures medicine.Values() == After(old(medicine.Values()), r.json, MEDICINE, MEDICINE_NAMES)
    ensures Stocked(db.entries,
      if r.foodWritten then food.Values() else old(food.Values()),
      if r.medicineWritten then medicine.Values() else old(medicine.Values()))
    ensures forall key | key != FOOD && key != MEDICINE :: Agree(old(db.entries), db.entries, key)
  {
    hide Reads, Fits, After, StockText;
    DifferentKeys();
    UpdateFood(food, r.json);
    UpdateMedicine(medicine, r.json);
    UpdateFoodSupplyInDb(food, db, r.foodWritten);
    UpdateMedicineSupplyInDb(medicine, db, r.medicineWritten);
  }

  // ---- Runs ----

  /** The stock of one item after some changes, clamped at zero after each. */
  function Level(x: int, changes: seq<int>): int {
    if changes == [] then x
    else Larger(0, Level(x, changes[..|changes| - 1]) + changes[|changes| - 1])
  }

  /** The stock that the changes would add up to without clamping. */
  function Total(x: int, changes: seq<int>): int {
    if changes == [] then x else Total(x, changes[..|changes| - 1]) + changes[|changes| - 1]
  }

  /**
    With the totals S_0 = x, S_1, ..., S_n, the level is S_n - min(0, S_0, ..., S_n): no less
    than S_n and S_n - S_k for any k, and equal to one of them.
  */
  lemma {:induction false} LevelIsReflected(x: int, changes: seq<int>)
    requires 0 <= x
    ensures 0 <= Level(x, changes) && Total(x, changes) <= Level(x, changes)
    ensures forall k | 0 <= k <= |changes| :: Total(x, changes) - Total(x, changes[..k]) <= Level(x, changes)
    ensures Level(x, changes) == Total(x, changes)
      || exists k | 0 <= k <= |changes| :: Level(x, changes) == Total(x, changes) - Total(x, changes[..k])
  {
    var n := |changes|;
    assert changes[..n] == changes;
    if changes != [] {
      var before := changes[..n - 1];
      LevelIsReflected(x, before);
      forall k | 0 <= k <= n ensures Total(x, changes) - Total(x, changes[..k]) <= Level(x, changes) {
        if k < n {
          assert changes[..k] == before[..k];
        }
      }
      if Level(x, before) != Total(x, before) {
        var k :| 0 <= k <= n - 1 && Level(x, before) == Total(x, before) - Total(x, before[..k]);
        assert changes[..k] == before[..k];
      }
      assert Level(x, changes) == 0 ==> Level(x, changes) == Total(x, changes) - Total(x, changes[..n]);
    }
  }

  predicate Writes(r: Request, section: Text) {
    if section == FOOD then r.foodWritten else r.medicineWritten
  }

  /** The change a request makes to what is stored about an item. */
  function Change(r: Request, section: Text, name: Text): int {
    if r.Read() && Writes(r, section) then Delta(r.json, section, name) else 0
  }

  function Changes(requests: seq<Request>, section: Text, name: Text): seq<int> {
    seq(|requests|, i requires 0 <= i < |requests| => Change(requests[i], section, name))
  }

  /** The stored values after some requests. */
  ghost predicate AtLevels(
      now: seq<int32>, start: seq<int32>, requests: seq<Request>, section: Text, names: seq<Text>)
  {
    && |now| == |start| == |names|
    && forall i | 0 <= i < |now| :: now[i] == Level(start[i], Changes(requests, section, names[i]))
  }

  /** At no request does a sum overflow. */
  ghost predicate NeverOverflows(start: seq<int32>, requests: seq<Request>, section: Text, names: seq<Text>) {
    && |start| == |names| && (forall i | 0 <= i < |start| :: 0 <= start[i])
    && forall n, i | 0 <= n < |requests| && requests[n].Read() && 0 <= i < |start| ::
         Level(start[i], Changes(requests[..n], section, names[i])) + Delta(requests[n].json, section, names[i])
         <= INT_MAX
  }

  lemma ChangesNext(requests: seq<Request>, n: nat, section: Text, name: Text)
    requires n < |requests|
    ensures Changes(requests[..n + 1], section, name)
         == Changes(requests[..n], section, name) + [Change(requests[n], section, name)]
  {
    hide Change;
    assert requests[..n + 1] == requests[..n] + [requests[n]];
  }

  lemma LevelNext(x: int, changes: seq<int>, change: int)
    ensures Level(x, changes + [change]) == Larger(0, Level(x, changes) + change)
  {
    assert (changes + [change])[..|changes|] == changes;
  }

  lemma FitsAt(now: seq<int32>, start: seq<int32>, requests: seq<Request>, n: nat, section: Text, names: seq<Text>)
    requires n < |requests| && AtLevels(now, start, requests[..n], section, names)
    requires NeverOverflows(start, requests, section, names)
    ensures forall i | 0 <= i < |now| :: 0 <= now[i]
    ensures requests[n].Read() ==> Fits(now, requests[n].json, section, names)
  {
    hide Delta, Changes;
    forall i | 0 <= i < |now| ensures 0 <= now[i] {
      LevelIsReflected(start[i], Changes(requests[..n], section, names[i]));
    }
  }

  /** The stock of a section after a request. */
  function Served(values: seq<int32>, r: Request, section: Text, names: seq<Text>): seq<int>
    requires |values| == |names|
  {
    if r.Read() && Writes(r, section) then After(values, r.json, section, names) else values
  }

  lemma AtLevelsNext(
      now: seq<int32>, next: seq<int32>, start: seq<int32>, requests: seq<Request>, n: nat,
      section: Text, names: seq<Text>)
    requires n < |requests| && AtLevels(now, start, requests[..n], section, names)
    requires forall i | 0 <= i < |now| :: 0 <= now[i]
    requires next == Served(now, requests[n], section, names)
    ensures AtLevels(next, start, requests[..n + 1], section, names)
  {
    hide Delta, Changes, Level;
    forall i | 0 <= i < |now|
      ensures next[i] == Level(start[i], Changes(requests[..n + 1], section, names[i]))
    {
      ChangesNext(requests, n, section, names[i]);
      LevelNext(start[i], Changes(requests[..n], section, names[i]), Change(requests[n], section, names[i]));
    }
  }

  /** What a request asks of the stock: terminated memory, and sums that fit an int. */
  ghost predicate Serves(r: Request, food: seq<int32>, medicine: seq<int32>) {
    && r.Terminated() && |food| == 4 && |medicine| == 3
    && (r.Read() ==> Fits(food, r.json, FOOD, FOOD_NAMES) && Fits(medicine, r.json, MEDICINE, MEDICINE_NAMES))
  }

  /** One request, as the handler of updates over TCP serves it; if a value is not read nothing happens. */
  method Serve(db: RocksDbWrapper, r: Request, ghost food: seq<int32>, ghost medicine: seq<int32>)
      returns (ok: bool, ghost food': seq<int32>, ghost medicine': seq<int32>)
    requires Stocked(db.entries, food, medicine) && Serves(r, food, medicine)
    modifies db
    ensures ok == r.Read() && (!ok ==> db.entries == old(db.entries))
    ensures Stocked(db.entries, food', medicine')
    ensures |food| == |FOOD_NAMES| && food' == Served(food, r, FOOD, FOOD_NAMES)
    ensures |medicine| == |MEDICINE_NAMES| && medicine' == Served(medicine, r, MEDICINE, MEDICINE_NAMES)
    ensures forall key | key != FOOD && key != MEDICINE :: Agree(old(db.entries), db.entries, key)
  {
    DifferentKeys();
    hide Reads, Fits, After;
    var foodSupply := GetFoodSupply(db, r.foodOpens, r.foodBehind, food);
    var medicineSupply := GetMedicineSupply(db, r.medicineOpens, r.medicineBehind, medicine);
    if foodSupply == null || medicineSupply == null {
      return false, food, medicine;
    }
    UpdateSuppliesFromJson(foodSupply, medicineSupply, db, r);
    ok := true;
    food' := if r.foodWritten then foodSupply.Values() else food;
    medicine' := if r.medicineWritten then medicineSupply.Values() else medicine;
  }
}
