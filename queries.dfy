/** The fixed command table `ques` and the control-transfer setups built from it. */
module Queries {
  import opened Usb

  /** The enumeration whose values index `ques`. */
  datatype Question = Temperatura1 | Temperatura2 | Temperatura3 | Ini1 | Ini2

  /** The enumerator's value: its position in `ques`. */
  function Index(q: Question): nat
  {
    match q
    case Temperatura1 => 0
    case Temperatura2 => 1
    case Temperatura3 => 2
    case Ini1 => 3
    case Ini2 => 4
  }

  /** One entry of `ques`: an 8-byte command and its label (`None` for a NULL label). */
  datatype QuesEntry = QuesEntry(data: seq<byte>, disc: Option<string>)

  /** The initialiser of the entry a question names. */
  function Entry(q: Question): QuesEntry
  {
    match q
    case Temperatura1 => QuesEntry([0x01, 0x80, 0x33, 0x01, 0x00, 0x00, 0x00, 0x00], Some("uTemperatura1"))
    case Temperatura2 => QuesEntry([0x01, 0x80, 0x33, 0x01, 0x00, 0x00, 0x00, 0x00], Some("uTemperatura2"))
    case Temperatura3 => QuesEntry([0x01, 0x80, 0x33, 0x01, 0x00, 0x00, 0x00, 0x00], Some("uTemperatura3"))
    case Ini1 => QuesEntry([0x01, 0x82, 0x77, 0x01, 0x00, 0x00, 0x00, 0x00], Some("uIni1"))
    case Ini2 => QuesEntry([0x01, 0x86, 0xff, 0x01, 0x00, 0x00, 0x00, 0x00], Some("uIni2"))
  }

  /** A slot of `ques` that has no initialiser: static storage, so zero bytes and a NULL label. */
  const Unset: QuesEntry := QuesEntry([0, 0, 0, 0, 0, 0, 0, 0], None)

  /** The static table `ques[8]`: five initialised entries followed by three unset ones. */
  const Ques: seq<QuesEntry> :=
    [Entry(Temperatura1), Entry(Temperatura2), Entry(Temperatura3), Entry(Ini1), Entry(Ini2), Unset, Unset, Unset]

  /** `ques[question].data`. */
  function Data(q: Question): seq<byte>
  {
    Ques[Index(q)].data
  }

  const TemperatureCommand: seq<byte> := [0x01, 0x80, 0x33, 0x01, 0x00, 0x00, 0x00, 0x00]

  predicate IsTemperature(q: Question)
  {
    q == Temperatura1 || q == Temperatura2 || q == Temperatura3
  }

  /** Every enumerator indexes an initialised entry of `ques`, so no question
      reaches the unset tail with its NULL label; the enumerators are distinct
      indices. */
  lemma QuesIndexing(q: Question, q': Question)
    ensures Index(q) < 5 < |Ques| == 8
    ensures Ques[Index(q)] == Entry(q) && Ques[Index(q)].disc.Some?
    ensures |Data(q)| == ReqIntLen
    ensures Index(q) == Index(q') ==> q == q'
  {
  }

  /** The three temperature queries carry the same bytes; the two init queries
      differ from each other and from the temperature queries. */
  lemma QueryPayloads(q: Question)
    ensures IsTemperature(q) <==> Data(q) == TemperatureCommand
    ensures Data(Ini1) != Data(Ini2)
  {
  }

  /** The init control write of `ini_control_transfer`: a 2-byte payload,
      different from every query write. */
  function InitSetup(): (s: ControlSetup)
    ensures |s.data| == 2 && s.timeoutMs == Timeout
    ensures forall q :: s != QuerySetup(q)
  {
    ControlSetup(0x21, 0x09, 0x0201, 0x00, [0x01, 0x01], Timeout)
  }

  /** The query control write of `control_transfer`. */
  function QuerySetup(q: Question): (s: ControlSetup)
    ensures |s.data| == ReqIntLen && s.data == Data(q)
  {
    ControlSetup(0x21, 0x09, 0x0200, 0x01, Data(q), ReqIntLen * 30)
  }

  /** Control writes identify the query they carry: init and query writes use
      different values and indexes, and two query writes are equal exactly when
      their payloads are. */
  lemma SetupsDistinct(q: Question, q': Question)
    ensures InitSetup() != QuerySetup(q)
    ensures QuerySetup(q) == QuerySetup(q') <==> Data(q) == Data(q')
  {
  }
}
