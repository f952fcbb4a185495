# Pedestrian trainer: dataset assembly, solver buffer and parameter file

This project models the original index and buffer logic of the batch
pedestrian-classifier trainer `ped_train.cpp`. Everything else in that
program is a call into OpenCV or libsvm. The model covers four pieces:

- **Descriptor length** (`Geometry`). `DescriptorDim` is computed from the
  HOG geometry constants with C's truncating integer division. Those
  constants live in a header that is not part of this model, so they are a
  parameter. The model proves when the length is positive. It also proves
  that the formula equals the descriptor length of the extractor configured
  in `main` if and only if a block is two cells wide.
- **Dataset assembly** (`Assembly`). `Assemble` allocates the zeroed N×D
  feature matrix, the label column and `order`, with N = P + Q. Positive
  descriptor `i` goes to row `i` with label 1, and negative descriptor `i`
  goes to row `P + i` with label 0. Only columns `0..D-1` are copied, so each
  descriptor must hold at least D values; the source does not check this.
  `order` is the identity. The label column holds exactly P ones and Q zeros.
- **Solver problem** (`SparseProblem`). `BuildProblem` fills the flat
  `x_space` buffer of N·(D+1) nodes and the `prob.x` row offsets. It fills the
  `prob.y` labels through `order`. Row `i` starts at slot `i·(D+1)`. Slot `j < D`
  holds index `j+1` and the value `features[order[i], j]`, and slot `D` holds the
  sentinel index −1. The model proves that row slots lie inside the buffer,
  that different rows never share a slot, and that the rows tile the buffer.
  A walk from `prob.x[i]` up to the sentinel gives back exactly that row's D
  values with indices 1..D. When `order` is a permutation, `prob.y` holds the
  same P ones and Q zeros as the label column.
- **Parameter file** (`ParamFile`). `SaveParams` streams the means and then
  the standard deviations, token by token. Each token is followed by a space,
  or by a newline after the last column. The model proves that the output is
  the two-line text `ParamText`, and that for D = 0 nothing is written. If no
  token contains a space or a newline, splitting the text back into lines and
  tokens recovers the means and the deviations in column order.

`Permutations` holds the index-vector vocabulary. `IsPermutation(order, n)`
means that `order` is a rearrangement of 0..n-1, which is all the shuffle
guarantees. `Gather` reads a sequence through an index vector.
`GatherPermutation` proves that reading through a permutation keeps the
multiset of values. `Arithmetic` holds small multiplication and division
facts.

Feature values are `real`. The code only copies them, apart from the
float-to-double widening, which is the identity here. Number-to-text
rendering is a parameter `render: real -> string`.

Two behaviours of the code are kept as they are:

- When there are no columns (D = 0), `saveParams` writes nothing, because its
  inner loop never runs (`ped_train.cpp:273`). The model writes nothing too.
- The code never checks that `imread` succeeded (`ped_train.cpp:88,103`). The
  descriptors are inputs, and their minimum length of D values is a
  precondition of `Assemble`.

## Model

| member | source | states |
|---|---|---|
| `Geometry.CDiv` | Pedestrian_Detection/src/source/ped_train.cpp:75-77 | quotient truncated toward zero: abs(q)·abs(b) ≤ abs(a) < (abs(q)+1)·abs(b), q ≥ 0 when the signs agree and q ≤ 0 when they differ, and equal to Euclidean `/` for non-negative operands |
| `Geometry.DescriptorDim` | Pedestrian_Detection/src/source/ped_train.cpp:75-77 | for an image at least one cell each way, D > 0 iff ORIENT > 0, CELL_PER_BLOCK ≠ 0 and the image spans at least two cells across and down |
| `Geometry.DimMatchesHogIff` | Pedestrian_Detection/src/source/ped_train.cpp:68-77 | for a geometry whose block fits in the image, D equals the configured extractor's descriptor length (bins × cells per block² × block positions across × down) iff CELL_PER_BLOCK = 2 |
| `Assembly.Assemble` | Pedestrian_Detection/src/source/ped_train.cpp:79-114 | N×D matrix with positive i in row i and negative i in row P+i (columns 0..D-1), labels = P ones then Q zeros, `order` = identity 0..N-1 |
| `Assembly.LabelCounts` | Pedestrian_Detection/src/source/ped_train.cpp:86-114 | the assembled label column has N entries: exactly P ones and Q zeros |
| `Permutations.PermutationInRange` | Pedestrian_Detection/src/source/ped_train.cpp:123 | a rearrangement of 0..N-1 has N entries, each a valid row index |
| `Permutations.GatherPermutation` | Pedestrian_Detection/src/source/ped_train.cpp:140-142 | reading a column through a permutation of its indices keeps its multiset of values |
| `SparseProblem.SlotInBuffer` | Pedestrian_Detection/src/source/ped_train.cpp:138-141 | every slot `i·(D+1)+j` with i < N, j ≤ D lies inside the N·(D+1) buffer |
| `SparseProblem.SlotsDisjoint` | Pedestrian_Detection/src/source/ped_train.cpp:141-149 | two (row, column ≤ D) pairs with the same slot are the same pair: row ranges are disjoint |
| `SparseProblem.SlotCovers` | Pedestrian_Detection/src/source/ped_train.cpp:138-149 | every buffer slot is slot (k / (D+1), k % (D+1)) of some row: the rows tile the buffer |
| `SparseProblem.BuildProblem` | Pedestrian_Detection/src/source/ped_train.cpp:135-150 | `prob.x[i]` = i·(D+1); the buffer is the sparse layout of the matrix rows read through `order` (index j+1, value, sentinel −1); `prob.y[i]` = label[order[i]] as a double |
| `SparseProblem.FillRow` | Pedestrian_Detection/src/source/ped_train.cpp:143-149 | one row pass writes index j+1 and value features[order[i], j] in slots i·(D+1)+j and the sentinel index in slot i·(D+1)+D; every slot outside row i, and the sentinel's value, keep what they held |
| `SparseProblem.ReadRowRoundTrip` | Pedestrian_Detection/src/source/ped_train.cpp:141-149 | walking the buffer from row i's offset up to the sentinel yields exactly that row's D nodes, with indices 1..D, in order |
| `SparseProblem.ProblemLabelCounts` | Pedestrian_Detection/src/source/ped_train.cpp:140-142 | when `order` is a permutation of 0..N-1, `prob.y` has N entries: exactly P ones and Q zeros |
| `ParamFile.SaveParams` | Pedestrian_Detection/src/source/ped_train.cpp:268-287 | the streamed output is the means line and then the standard deviations line, tokens space-separated and newline-terminated; empty when there are no columns |
| `ParamFile.ParamRoundTrip` | Pedestrian_Detection/src/source/ped_train.cpp:271-286 | with at least one column and separator-free tokens, the text parses as exactly two lines holding the means and then the standard deviations, one token per column in order |

## Left out

- Descriptor extraction (`cvHog.compute`), `imread` and `cv::glob` are OpenCV calls. The descriptors are inputs, and an unreadable image is not modelled.
- `ZScore` is floating-point statistics through `cv::meanStdDev`, with a 1e-5 floor. `BuildProblem` therefore takes any feature matrix, and the model does not chain assembly, normalisation and problem building into one run of `main`.
- `std::shuffle` and its seed (time-based or 7) are a library random generator. Its result appears only as the precondition `IsPermutation`.
- `svm_check_parameter`, `svm_train`, `svm_save_model` and the free calls belong to libsvm. `main`'s own exits on their failures are not modelled: it returns −1 when `svm_check_parameter` reports a message and −2 when `svm_save_model` fails. Neither are the constant assignments in `prepare_param`.
- `arg_parse`, `getopt`, console output, opening and closing the file, and the text of a double are I/O. The file contents are returned as a string, and number text is the `render` parameter.
- `Malloc`/`free` are replaced by Dafny arrays. The sentinel node's value is left as allocated, because the source never sets it.
- The commented-out train/test dump code is dead code.
- Geometry.DescriptorDim: 32-bit `int` overflow of the product is not modelled. The integers are unbounded.
- Assembly.Assemble: D is a natural number. With a negative D, matrix allocation fails before the loops run.
- SparseProblem.BuildProblem: `size_t` wrap-around of the slot arithmetic is not modelled. The buffer size N·(D+1) is taken as representable.
