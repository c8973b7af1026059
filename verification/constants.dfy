/** Version thresholds and fixed paths of the WSL2 CUDA setup tool. */
module Constants {

  /** Toolkit version the thresholds below are stated for. */
  const CudaVersion := "12.9"
  /** Oldest Windows driver that supports `CudaVersion`. */
  const MinWindowsDriver := "528.33"
  /** Driver the tool recommends. */
  const RecommendedDriver := "566.03"

  /** The WSL-side `nvidia-smi`, split into its directory and file name. */
  const WslNvidiaSmiDir := "/usr/lib/wsl/lib"
  const WslNvidiaSmiName := "nvidia-smi"
  const WslNvidiaSmiPath := WslNvidiaSmiDir + "/" + WslNvidiaSmiName
  /** The host-side binary every repair symlink points to. */
  const WindowsNvidiaSmiPath := "/mnt/c/Windows/System32/nvidia-smi.exe"

  /** Seconds allowed to an `nvidia-smi` query or probe. */
  const NvidiaSmiTimeout: nat := 3
  /** Seconds allowed to each privileged `sudo` step of the repair. */
  const SudoTimeout: nat := 5
}
