/** The value types several components share. */
module Models {
  /** The supported consoles, in the order of their numeric values. */
  datatype ConsoleType =
    | Unknown | GameBoy | GameBoyColor | GameBoyAdvance | NintendoDs | NintendoDsi | Nes | Snes
    | Nintendo64 | FamicomDiskSystem | MegaDrive | MasterSystem | GameGear | PokemonMini | Sg1000
    | PcEngine | WonderSwan | WonderSwanColor | NeoGeoPocket | NeoGeoPocketColor | Atari2600
    | Atari5200 | Atari7800 | ColecoVision | Intellivision | Msx | Msx2
  {
    /** The enumeration value. */
    function Value(): nat {
      match this
      case Unknown => 0 case GameBoy => 1 case GameBoyColor => 2 case GameBoyAdvance => 3
      case NintendoDs => 4 case NintendoDsi => 5 case Nes => 6 case Snes => 7 case Nintendo64 => 8
      case FamicomDiskSystem => 9 case MegaDrive => 10 case MasterSystem => 11 case GameGear => 12
      case PokemonMini => 13 case Sg1000 => 14 case PcEngine => 15 case WonderSwan => 16
      case WonderSwanColor => 17 case NeoGeoPocket => 18 case NeoGeoPocketColor => 19
      case Atari2600 => 20 case Atari5200 => 21 case Atari7800 => 22 case ColecoVision => 23
      case Intellivision => 24 case Msx => 25 case Msx2 => 26
    }
  }

  const CONSOLES := [
    Unknown, GameBoy, GameBoyColor, GameBoyAdvance, NintendoDs, NintendoDsi, Nes, Snes, Nintendo64,
    FamicomDiskSystem, MegaDrive, MasterSystem, GameGear, PokemonMini, Sg1000, PcEngine, WonderSwan,
    WonderSwanColor, NeoGeoPocket, NeoGeoPocketColor, Atari2600, Atari5200, Atari7800, ColecoVision,
    Intellivision, Msx, Msx2
  ]

  /** The values count the consoles through in that order. */
  lemma ValueCounts(c: ConsoleType)
    ensures c.Value() < |CONSOLES| == 27 && CONSOLES[c.Value()] == c
  {
  }

  datatype MatchMethod = NoMatch | HeaderSerial | Crc32 | Sha1 | Filename

  /** A byte as a number. */
  type byte = b: int | 0 <= b < 256

  /** An unsigned 32-bit number, where only its value matters and not its bits. */
  type uint32 = x: int | 0 <= x < 0x1_0000_0000
}
