// The published vocabularies, and the option type the other modules share.
module Taxonomy {

  datatype Option<+T> = None | Some(value: T)

  datatype SpeechEventType =
    | FilledPause | LexicalFiller | Repetition | FalseStart | SelfRepair
    | CutOff | Prolongation | SilentPause | Unintelligible
  {
    function Value(): string {
      match this
      case FilledPause => "filled_pause"
      case LexicalFiller => "lexical_filler"
      case Repetition => "repetition"
      case FalseStart => "false_start"
      case SelfRepair => "self_repair"
      case CutOff => "cut_off"
      case Prolongation => "prolongation"
      case SilentPause => "silent_pause"
      case Unintelligible => "unintelligible"
    }
  }

  datatype ContextualRole = Filler | Semantic | DiscourseMarker | Uncertain
  {
    function Value(): string {
      match this
      case Filler => "filler"
      case Semantic => "semantic"
      case DiscourseMarker => "discourse_marker"
      case Uncertain => "uncertain"
    }
  }
}
