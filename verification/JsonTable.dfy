/**
 The character classes, states and transition table of `src/scan_json.cpp`.
 The table is written row by row as a function; a negative entry of the
 original is one of the named actions here.
 */
module JsonTable {
  import opened Bytes
  import opened JsonBytes

  datatype Class =
    | Illegal // the universal error code as a class
    | Space | White | LCurb | RCurb | LSqrb | RSqrb | Colon | Comma | Quote | Backs | Slash
    | Plus | Minus | Point | Zero | Digit
    | LowA | LowB | LowC | LowD | LowE | LowF | LowL | LowN | LowR | LowS | LowT | LowU
    | Abcdf | BigE | Etc

  datatype State =
    | GO | OK | OB | KE | CO | VA | AR | ST | ES | U1 | U2 | U3 | U4
    | MI | ZE | IN | FR | E1 | E2 | E3
    | T1 | T2 | T3 | F1 | F2 | F3 | F4 | N1 | N2 | N3

  datatype Entry =
    | Goto(next: State)
    | EndEmptyObject // -9
    | EndObject      // -8
    | EndArray       // -7
    | BeginObject    // -6
    | BeginArray     // -5
    | EndString      // -4
    | Separator      // -3
    | KeyColon       // -2
    | Bad            // -1

  /** `ascii_class`, with every code from 128 up mapped to `Etc`. */
  function ClassOf(c: nat): Class {
    if c >= 128 then Etc
    else if c < 32 then if c == 9 || c == 10 || c == 13 then White else Illegal
    else if 49 <= c <= 57 then Digit
    else match c
      case 32 => Space
      case 34 => Quote
      case 43 => Plus
      case 44 => Comma
      case 45 => Minus
      case 46 => Point
      case 47 => Slash
      case 48 => Zero
      case 58 => Class.Colon
      case 65 => Abcdf
      case 66 => Abcdf
      case 67 => Abcdf
      case 68 => Abcdf
      case 69 => BigE
      case 70 => Abcdf
      case 91 => LSqrb
      case 92 => Backs
      case 93 => RSqrb
      case 97 => LowA
      case 98 => LowB
      case 99 => LowC
      case 100 => LowD
      case 101 => LowE
      case 102 => LowF
      case 108 => LowL
      case 110 => LowN
      case 114 => LowR
      case 115 => LowS
      case 116 => LowT
      case 117 => LowU
      case 123 => LCurb
      case 125 => RCurb
      case _ => Etc
  }

  predicate IsBlank(k: Class) { k.Space? || k.White? }

  predicate IsDigit(k: Class) { k.Zero? || k.Digit? }

  predicate IsHex(k: Class) {
    k.Zero? || k.Digit? || k.LowA? || k.LowB? || k.LowC? || k.LowD? || k.LowE? || k.LowF? || k.Abcdf? || k.BigE?
  }

  /** For every byte the classes are the byte sets of RFC 8259; a control character has none. */
  lemma ClassesAgree(c: byte)
    ensures IsBlank(ClassOf(c)) <==> WsByte(c)
    ensures IsDigit(ClassOf(c)) <==> DigitByte(c)
    ensures IsHex(ClassOf(c)) <==> HexByte(c)
    ensures var k := ClassOf(c); !k.Illegal? && !k.White? && !k.Quote? && !k.Backs? <==> PlainByte(c)
    ensures ClassOf(c).Illegal? <==> c < 32 && !WsByte(c)
  {}

  /** The entries shared by the rows OK, ZE, IN, FR and E3: what may follow a value. */
  function AfterValueEntry(k: Class): Entry {
    match k
    case Space => Goto(OK)
    case White => Goto(OK)
    case RCurb => EndObject
    case RSqrb => EndArray
    case Comma => Separator
    case _ => Bad
  }

  /** The entries shared by the rows VA and AR: how a value may begin. */
  function ValueStartEntry(k: Class): Entry {
    match k
    case LCurb => BeginObject
    case LSqrb => BeginArray
    case Quote => Goto(ST)
    case Minus => Goto(MI)
    case Zero => Goto(ZE)
    case Digit => Goto(IN)
    case LowF => Goto(F1)
    case LowN => Goto(N1)
    case LowT => Goto(T1)
    case _ => Bad
  }

  function Only(b: bool, s: State): Entry { if b then Goto(s) else Bad }

  /** `state_transition_table[s][k]`. */
  function Transition(s: State, k: Class): Entry {
    match s
    case GO => if IsBlank(k) then Goto(GO) else if k.LCurb? then BeginObject else if k.LSqrb? then BeginArray else Bad
    case OK => AfterValueEntry(k)
    case OB => if IsBlank(k) then Goto(OB) else if k.RCurb? then EndEmptyObject else Only(k.Quote?, ST)
    case KE => if IsBlank(k) then Goto(KE) else Only(k.Quote?, ST)
    case CO => if IsBlank(k) then Goto(CO) else if k.Colon? then KeyColon else Bad
    case VA => if IsBlank(k) then Goto(VA) else ValueStartEntry(k)
    case AR => if IsBlank(k) then Goto(AR) else if k.RSqrb? then EndArray else ValueStartEntry(k)
    case ST => if k.Quote? then EndString else if k.Backs? then Goto(ES) else Only(!k.White? && !k.Illegal?, ST)
    case ES =>
      if k.Quote? || k.Backs? || k.Slash? || k.LowB? || k.LowF? || k.LowN? || k.LowR? || k.LowT? then Goto(ST)
      else Only(k.LowU?, U1)
    case U1 => Only(IsHex(k), U2)
    case U2 => Only(IsHex(k), U3)
    case U3 => Only(IsHex(k), U4)
    case U4 => Only(IsHex(k), ST)
    case MI => if k.Zero? then Goto(ZE) else Only(k.Digit?, IN)
    case ZE => if k.Point? then Goto(FR) else AfterValueEntry(k)
    case IN =>
      if k.Point? then Goto(FR) else if IsDigit(k) then Goto(IN)
      else if k.LowE? || k.BigE? then Goto(E1) else AfterValueEntry(k)
    case FR => if IsDigit(k) then Goto(FR) else if k.LowE? || k.BigE? then Goto(E1) else AfterValueEntry(k)
    case E1 => if k.Plus? || k.Minus? then Goto(E2) else Only(IsDigit(k), E3)
    case E2 => Only(IsDigit(k), E3)
    case E3 => if IsDigit(k) then Goto(E3) else AfterValueEntry(k)
    case T1 => Only(k.LowR?, T2)
    case T2 => Only(k.LowU?, T3)
    case T3 => Only(k.LowE?, OK)
    case F1 => Only(k.LowA?, F2)
    case F2 => Only(k.LowL?, F3)
    case F3 => Only(k.LowS?, F4)
    case F4 => Only(k.LowE?, OK)
    case N1 => Only(k.LowU?, N2)
    case N2 => Only(k.LowL?, N3)
    case N3 => Only(k.LowL?, OK)
  }
}
