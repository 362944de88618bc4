/**
 * The types shared between the message producers and the display
 * (main/display.h): the indicator, price-level and measurement-tag
 * enumerations, the payload structs and the measurement itself.
 *
 * The C `struct measurement` pairs a tag with an untagged union; here it is
 * a datatype with one constructor per tag, so a payload can only be read
 * under the tag that wrote it.
 */
module DisplayTypes {
  import opened StdInt
  import opened Wrappers

  const DISPLAY_WIDTH: nat := 480
  const DISPLAY_HEIGHT: nat := 320

  /** A three-level status indicator. */
  datatype Indicator = Off | On | Connected

  datatype PriceLevel = Low | Normal | High

  /** The measurement tags, in declaration order. */
  datatype MeasType =
    | CommTag | TemperatureTag | LevelTag | CarHeaterTag | OilBurnerTag | StockHeatTag
    | SolHeatTag | DoorTag | FloodTag | TimeTag | PriceTag

  datatype CommState = CommState(wifi: bool, ntp: bool, mqtt: bool)

  datatype Price = Price(level: PriceLevel, euros: real)

  /** Wall-clock time as the display shows it; each field is a uint8_t. */
  datatype NtpTime = NtpTime(hours: uint8, minutes: uint8, seconds: uint8)

  /**
   * One measurement. TEMPERATURE carries `heater.temperature`, LEVEL
   * `heater.level`, the indicator tags `indic`, TIME `time`, PRICE `price`
   * and COMM `comm`. No producer in the firmware writes OILBURNER ..
   * FLOOD or PRICE; their payloads follow the struct each is named after.
   */
  datatype Measurement =
    | Comm(comm: CommState)
    | Temperature(temperature: real)
    | Level(level: int32)
    | CarHeater(indic: Indicator)
    | OilBurner(indic: Indicator)
    | StockHeat(indic: Indicator)
    | SolHeat(indic: Indicator)
    | Door(indic: Indicator)
    | Flood(indic: Indicator)
    | Time(time: NtpTime)
    | PriceInfo(price: Price)

  /** The `id` field of the C struct. */
  function Tag(m: Measurement): (t: MeasType)
    ensures t == CommTag <==> m.Comm?
    ensures t == TemperatureTag <==> m.Temperature?
    ensures t == LevelTag <==> m.Level?
    ensures t == CarHeaterTag <==> m.CarHeater?
    ensures t == OilBurnerTag <==> m.OilBurner?
    ensures t == StockHeatTag <==> m.StockHeat?
    ensures t == SolHeatTag <==> m.SolHeat?
    ensures t == DoorTag <==> m.Door?
    ensures t == FloodTag <==> m.Flood?
    ensures t == TimeTag <==> m.Time?
    ensures t == PriceTag <==> m.PriceInfo?
  {
    match m
    case Comm(_) => CommTag
    case Temperature(_) => TemperatureTag
    case Level(_) => LevelTag
    case CarHeater(_) => CarHeaterTag
    case OilBurner(_) => OilBurnerTag
    case StockHeat(_) => StockHeatTag
    case SolHeat(_) => SolHeatTag
    case Door(_) => DoorTag
    case Flood(_) => FloodTag
    case Time(_) => TimeTag
    case PriceInfo(_) => PriceTag
  }

  /** The C enumerator values: INDICATOR_OFF = 0, INDICATOR_ON = 1, INDICATOR_CONNECTED = 2. */
  function IndicatorValue(s: Indicator): (n: nat)
    ensures n < 3
  {
    match s
    case Off => 0
    case On => 1
    case Connected => 2
  }

  function IndicatorOfValue(n: int): (r: Option<Indicator>)
    ensures r.Some? <==> 0 <= n < 3
    ensures r.Some? ==> IndicatorValue(r.value) == n
  {
    if n == 0 then Some(Off) else if n == 1 then Some(On) else if n == 2 then Some(Connected) else None
  }

  /** low = 0, normal = 1, high = 2. */
  function PriceLevelValue(l: PriceLevel): (n: nat)
    ensures n < 3
  {
    match l
    case Low => 0
    case Normal => 1
    case High => 2
  }

  /** COMM = 0 .. PRICE = 10. */
  function MeasTypeValue(t: MeasType): (n: nat)
    ensures n < 11
  {
    match t
    case CommTag => 0
    case TemperatureTag => 1
    case LevelTag => 2
    case CarHeaterTag => 3
    case OilBurnerTag => 4
    case StockHeatTag => 5
    case SolHeatTag => 6
    case DoorTag => 7
    case FloodTag => 8
    case TimeTag => 9
    case PriceTag => 10
  }

  function MeasTypeOfValue(n: int): (r: Option<MeasType>)
    ensures r.Some? <==> 0 <= n < 11
    ensures r.Some? ==> MeasTypeValue(r.value) == n
  {
    if n == 0 then Some(CommTag)
    else if n == 1 then Some(TemperatureTag)
    else if n == 2 then Some(LevelTag)
    else if n == 3 then Some(CarHeaterTag)
    else if n == 4 then Some(OilBurnerTag)
    else if n == 5 then Some(StockHeatTag)
    else if n == 6 then Some(SolHeatTag)
    else if n == 7 then Some(DoorTag)
    else if n == 8 then Some(FloodTag)
    else if n == 9 then Some(TimeTag)
    else if n == 10 then Some(PriceTag)
    else None
  }

  /** Each enumeration's values are distinct and exhaust 0 .. count-1. */
  lemma EnumValuesRoundTrip(s: Indicator, l: PriceLevel, t: MeasType)
    ensures IndicatorOfValue(IndicatorValue(s)) == Some(s)
    ensures MeasTypeOfValue(MeasTypeValue(t)) == Some(t)
    ensures forall l' :: PriceLevelValue(l') == PriceLevelValue(l) ==> l' == l
  {
  }
}
