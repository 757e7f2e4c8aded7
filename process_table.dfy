/**
 * The table between Geant4 process / Celeritas action names and the
 * `ProcessId` enumeration that the validation application's ROOT output
 * uses, and the proof that it is one-to-one.
 */
module ProcessTable {
  /** Geant4 processes and Celeritas actions, in declaration order. */
  datatype ProcessId =
    | Transportation | IonIoni | Msc | HIoni | HBrems | HPairProd | CoulombScat
    | EIoni | EBrems | Photoelectric | Compton | Conversion | Rayleigh
    | Annihilation | MuIoni | MuBrems | MuPairProd
    // Celeritas actions
    | PreStep | MscRange | ElossRange | PhysicsDiscreteSelect
    | PhysicsIntegralRejected | PhysicsFailure | AlongStepGeneralLinear
    | ExtendFromPrimaries | InitializeTracks | AlongStepNeutral
    | GeoPropagationLimit | KillLooping | GeoBoundary | ExtendFromSecondaries
    | ActionDiagnostic | StepDiagnostic | StepGatherPre | StepGatherPost
    | NotMapped

  /** The enumerator declared i-th (counting from 0); `NotMapped` is the last. */
  function IdAt(i: nat): ProcessId
  {
    if i == 0 then Transportation
    else if i == 1 then IonIoni
    else if i == 2 then Msc
    else if i == 3 then HIoni
    else if i == 4 then HBrems
    else if i == 5 then HPairProd
    else if i == 6 then CoulombScat
    else if i == 7 then EIoni
    else if i == 8 then EBrems
    else if i == 9 then Photoelectric
    else if i == 10 then Compton
    else if i == 11 then Conversion
    else if i == 12 then Rayleigh
    else if i == 13 then Annihilation
    else if i == 14 then MuIoni
    else if i == 15 then MuBrems
    else if i == 16 then MuPairProd
    else if i == 17 then PreStep
    else if i == 18 then MscRange
    else if i == 19 then ElossRange
    else if i == 20 then PhysicsDiscreteSelect
    else if i == 21 then PhysicsIntegralRejected
    else if i == 22 then PhysicsFailure
    else if i == 23 then AlongStepGeneralLinear
    else if i == 24 then ExtendFromPrimaries
    else if i == 25 then InitializeTracks
    else if i == 26 then AlongStepNeutral
    else if i == 27 then GeoPropagationLimit
    else if i == 28 then KillLooping
    else if i == 29 then GeoBoundary
    else if i == 30 then ExtendFromSecondaries
    else if i == 31 then ActionDiagnostic
    else if i == 32 then StepDiagnostic
    else if i == 33 then StepGatherPre
    else if i == 34 then StepGatherPost
    else NotMapped
  }

  /** Position of each enumerator in the declaration. */
  function Position(p: ProcessId): nat
  {
    match p
    case Transportation => 0
    case IonIoni => 1
    case Msc => 2
    case HIoni => 3
    case HBrems => 4
    case HPairProd => 5
    case CoulombScat => 6
    case EIoni => 7
    case EBrems => 8
    case Photoelectric => 9
    case Compton => 10
    case Conversion => 11
    case Rayleigh => 12
    case Annihilation => 13
    case MuIoni => 14
    case MuBrems => 15
    case MuPairProd => 16
    case PreStep => 17
    case MscRange => 18
    case ElossRange => 19
    case PhysicsDiscreteSelect => 20
    case PhysicsIntegralRejected => 21
    case PhysicsFailure => 22
    case AlongStepGeneralLinear => 23
    case ExtendFromPrimaries => 24
    case InitializeTracks => 25
    case AlongStepNeutral => 26
    case GeoPropagationLimit => 27
    case KillLooping => 28
    case GeoBoundary => 29
    case ExtendFromSecondaries => 30
    case ActionDiagnostic => 31
    case StepDiagnostic => 32
    case StepGatherPre => 33
    case StepGatherPost => 34
    case NotMapped => 35
  }

  /** The name `process_map` pairs with each identifier. */
  function TableName(p: ProcessId): string
  {
    match p
    case Transportation => "Transportation"
    case IonIoni => "ionIoni"
    case Msc => "msc"
    case HIoni => "hIoni"
    case HBrems => "hBrems"
    case HPairProd => "hPairProd"
    case CoulombScat => "CoulombScat"
    case EIoni => "eIoni"
    case EBrems => "eBrem"
    case Photoelectric => "phot"
    case Compton => "compt"
    case Conversion => "conv"
    case Rayleigh => "Rayl"
    case Annihilation => "annihil"
    case MuIoni => "muIoni"
    case MuBrems => "muBrems"
    case MuPairProd => "muPairProd"
    case PreStep => "pre-step"
    case MscRange => "msc-range"
    case ElossRange => "eloss-range"
    case PhysicsDiscreteSelect => "physics-discrete-select"
    case PhysicsIntegralRejected => "physics-integral-rejected"
    case PhysicsFailure => "physics-failure"
    case AlongStepGeneralLinear => "along-step-general-linear"
    case ExtendFromPrimaries => "extend-from-primaries"
    case InitializeTracks => "initialize-tracks"
    case AlongStepNeutral => "along-step-neutral"
    case GeoPropagationLimit => "geo-propagation-limit"
    case KillLooping => "kill-looping"
    case GeoBoundary => "geo-boundary"
    case ExtendFromSecondaries => "extend-from-secondaries"
    case ActionDiagnostic => "action-diagnostic"
    case StepDiagnostic => "step-diagnostic"
    case StepGatherPre => "step-gather-pre"
    case StepGatherPost => "step-gather-post"
    case NotMapped => "not_mapped"
  }

  /**
   * `process_map`, entry by entry as it is initialised: every enumerator,
   * in declaration order, with its name.
   */
  function ProcessMap(): seq<(string, ProcessId)>
  {
    seq(36, i requires 0 <= i < 36 => (TableName(IdAt(i)), IdAt(i)))
  }

  /** Declaration position and `IdAt` are inverse: positions 0..35 name the 36 enumerators. */
  lemma PositionIdAt(i: nat)
    requires i < 36
    ensures Position(IdAt(i)) == i
  {
  }

  lemma IdAtPosition(p: ProcessId)
    ensures Position(p) < 36 && IdAt(Position(p)) == p
  {
  }

  /** Every enumerator occurs in the table, at its position and with its name. */
  lemma PositionEntry(p: ProcessId)
    ensures Position(p) < |ProcessMap()| && ProcessMap()[Position(p)] == (TableName(p), p)
  {
    IdAtPosition(p);
  }

  /**
   * Which enumerator a table name belongs to, read off its length and its
   * first and last characters: no two names in the table agree on all three.
   */
  function NameKey(s: string): ProcessId
  {
    if |s| == 0 then NotMapped
    else if |s| == 3 then Msc
    else if |s| == 4 then if s[0] == 'p' then Photoelectric else if s[0] == 'c' then Conversion else Rayleigh
    else if |s| == 5 then if s[0] == 'h' then HIoni else if s[0] == 'e' then (if s[|s| - 1] == 'i' then EIoni else EBrems) else Compton
    else if |s| == 6 then if s[0] == 'h' then HBrems else MuIoni
    else if |s| == 7 then if s[0] == 'i' then IonIoni else if s[0] == 'a' then Annihilation else MuBrems
    else if |s| == 8 then PreStep
    else if |s| == 9 then if s[0] == 'h' then HPairProd else MscRange
    else if |s| == 10 then if s[0] == 'm' then MuPairProd else NotMapped
    else if |s| == 11 then if s[0] == 'C' then CoulombScat else ElossRange
    else if |s| == 12 then if s[0] == 'k' then KillLooping else GeoBoundary
    else if |s| == 14 then Transportation
    else if |s| == 15 then if s[0] == 'p' then PhysicsFailure else (if s[|s| - 1] == 'c' then StepDiagnostic else StepGatherPre)
    else if |s| == 16 then StepGatherPost
    else if |s| == 17 then if s[0] == 'i' then InitializeTracks else ActionDiagnostic
    else if |s| == 18 then AlongStepNeutral
    else if |s| == 21 then if s[0] == 'e' then ExtendFromPrimaries else GeoPropagationLimit
    else if |s| == 23 then if s[0] == 'p' then PhysicsDiscreteSelect else ExtendFromSecondaries
    else if |s| == 25 then if s[0] == 'p' then PhysicsIntegralRejected else AlongStepGeneralLinear
    else NotMapped
  }

  lemma NameKeyGroup0(p: ProcessId)
    requires 0 <= Position(p) < 4
    ensures NameKey(TableName(p)) == p
  {
  }

  lemma NameKeyGroup1(p: ProcessId)
    requires 4 <= Position(p) < 8
    ensures NameKey(TableName(p)) == p
  {
  }

  lemma NameKeyGroup2(p: ProcessId)
    requires 8 <= Position(p) < 12
    ensures NameKey(TableName(p)) == p
  {
  }

  lemma NameKeyGroup3(p: ProcessId)
    requires 12 <= Position(p) < 16
    ensures NameKey(TableName(p)) == p
  {
  }

  lemma NameKeyGroup4(p: ProcessId)
    requires 16 <= Position(p) < 20
    ensures NameKey(TableName(p)) == p
  {
  }

  lemma NameKeyGroup5(p: ProcessId)
    requires 20 <= Position(p) < 22
    ensures NameKey(TableName(p)) == p
  {
  }

  lemma NameKeyGroup6(p: ProcessId)
    requires 22 <= Position(p) < 25
    ensures NameKey(TableName(p)) == p
  {
  }

  lemma NameKeyGroup7(p: ProcessId)
    requires 25 <= Position(p) < 28
    ensures NameKey(TableName(p)) == p
  {
  }

  lemma NameKeyGroup8(p: ProcessId)
    requires 28 <= Position(p) < 32
    ensures NameKey(TableName(p)) == p
  {
  }

  lemma NameKeyGroup9(p: ProcessId)
    requires 32 <= Position(p) < 36
    ensures NameKey(TableName(p)) == p
  {
  }

  /** Each table name determines its enumerator. */
  lemma NameKeyTableName(p: ProcessId)
    ensures NameKey(TableName(p)) == p
  {
    IdAtPosition(p);
    if Position(p) < 4 {
      NameKeyGroup0(p);
    } else if Position(p) < 8 {
      NameKeyGroup1(p);
    } else if Position(p) < 12 {
      NameKeyGroup2(p);
    } else if Position(p) < 16 {
      NameKeyGroup3(p);
    } else if Position(p) < 20 {
      NameKeyGroup4(p);
    } else if Position(p) < 22 {
      NameKeyGroup5(p);
    } else if Position(p) < 25 {
      NameKeyGroup6(p);
    } else if Position(p) < 28 {
      NameKeyGroup7(p);
    } else if Position(p) < 32 {
      NameKeyGroup8(p);
    } else {
      NameKeyGroup9(p);
    }
  }

  /** Different identifiers have different names in the table. */
  lemma TableNameInjective(p: ProcessId, q: ProcessId)
    ensures TableName(p) == TableName(q) ==> p == q
  {
    NameKeyTableName(p);
    NameKeyTableName(q);
  }

  /** No two entries share a name, so the initialiser list is a well-defined map. */
  lemma KeysDistinct()
    ensures forall i, j :: 0 <= i < j < |ProcessMap()| ==> ProcessMap()[i].0 != ProcessMap()[j].0
  {
    forall i, j | 0 <= i < j < |ProcessMap()|
      ensures ProcessMap()[i].0 != ProcessMap()[j].0
    {
      PositionIdAt(i);
      PositionIdAt(j);
      TableNameInjective(IdAt(i), IdAt(j));
    }
  }

  /** No two entries share an identifier, so at most one name maps to each. */
  lemma ValuesDistinct()
    ensures forall i, j :: 0 <= i < j < |ProcessMap()| ==> ProcessMap()[i].1 != ProcessMap()[j].1
  {
    forall i, j | 0 <= i < j < |ProcessMap()|
      ensures ProcessMap()[i].1 != ProcessMap()[j].1
    {
      PositionIdAt(i);
      PositionIdAt(j);
    }
  }
}
