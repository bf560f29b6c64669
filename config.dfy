/** The constants that drive the scanner (config.py): the four model kinds,
    the subfolder each kind is scanned from, the recognized file extensions
    and the default models directory. */
module Config {

  import opened Common
  import opened Strings

  /** The keys of `MODEL_SUBFOLDERS`; a row's `type` column holds `KindName`. */
  datatype Kind = Checkpoints | DiffusionModels | Loras | Embeddings

  function KindName(k: Kind): string {
    match k
    case Checkpoints => "checkpoints"
    case DiffusionModels => "diffusion_models"
    case Loras => "loras"
    case Embeddings => "embeddings"
  }

  /** The iteration order of `MODEL_SUBFOLDERS.items()`. */
  const KindOrder: seq<Kind> := [Checkpoints, DiffusionModels, Loras, Embeddings]

  /** `MODEL_SUBFOLDERS[kind]`: the folders, under the models root, scanned for `kind`. */
  function Subfolders(k: Kind): seq<string> {
    [KindName(k)]
  }

  /** `MODEL_EXTENSIONS`. */
  const ModelExtensions: set<string> := {".ckpt", ".safetensors", ".pt", ".bin"}

  /** The scanner's filter: the lower-cased file name ends with one of the extensions. */
  predicate HasModelExtension(fileName: string) {
    exists ext :: ext in ModelExtensions && EndsWith(Lower(fileName), ext)
  }

  /** There are exactly four kinds, each listed once in the scan order, with
      four distinct names. */
  lemma ExactlyFourKinds()
    ensures |KindOrder| == 4
    ensures forall k: Kind :: k in KindOrder
    ensures forall i, j :: 0 <= i < j < |KindOrder| ==> KindOrder[i] != KindOrder[j]
    ensures forall k1: Kind, k2: Kind :: KindName(k1) == KindName(k2) ==> k1 == k2
  {
    forall k: Kind ensures k in KindOrder {
      match k
      case Checkpoints => assert KindOrder[0] == k;
      case DiffusionModels => assert KindOrder[1] == k;
      case Loras => assert KindOrder[2] == k;
      case Embeddings => assert KindOrder[3] == k;
    }
  }

  /** Each kind is scanned from exactly one subfolder, which bears the kind's own name. */
  lemma OneFolderPerKind(k: Kind)
    ensures |Subfolders(k)| == 1 && Subfolders(k)[0] == KindName(k)
  {
  }

  /** The recognized extensions are exactly the four lower-case ones, so the
      extension test does not depend on the case of the file name. */
  lemma ExtensionTestIgnoresCase(fileName: string)
    ensures forall ext :: ext in ModelExtensions ==> IsLowerCase(ext) && ext[0] == '.'
    ensures HasModelExtension(fileName) <==> HasModelExtension(Lower(fileName))
  {
    LowerIsLowerCase(fileName);
  }
}
